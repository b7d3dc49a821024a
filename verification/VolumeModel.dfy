/**
 The life cycle of a volume and of the volumes stacked above it, as functions on values: what each
 operation of VolumeBase does to the tree of volumes and which events it broadcasts.  Class
 Volume.VolumeBase runs the same operations on objects.
 */
module VolumeModel {

  datatype Kind = Public | Private | Emulated | Asec | Obb

  datatype VState =
    | Unmounted | Checking | Mounted | MountedReadOnly | Formatting | Ejecting | Unmountable | Removed | BadRemoval

  datatype Event =
    | Created(id: string)
    | StateChanged(id: string, state: VState)
    | PathChanged(id: string, path: string)
    | InternalPathChanged(id: string, path: string)
    | MetadataChanged(id: string, value: string)
    | Destroyed(id: string)

  datatype Vol = Vol(id: string, kind: Kind, created: bool, state: VState, silent: bool, mountFlags: int,
                     path: string, internalPath: string, stacked: seq<Vol>)

  const OK := 0
  const EBUSY := -16

  /** What an operation leaves behind: the volume, the events in order, the status returned. */
  datatype Effect = Effect(vol: Vol, events: seq<Event>, res: int)

  /** What doMount does before it returns: announcements, new paths, a volume stacked on top. */
  datatype MountStep =
    | Announce(value: string)
    | SetPath(path: string)
    | SetInternalPath(path: string)
    | Stack(id: string, kind: Kind)

  datatype MountScript = MountScript(steps: seq<MountStep>, res: int)

  function NewVol(id: string, kind: Kind): Vol {
    Vol(id, kind, false, Unmounted, false, 0, "", "", [])
  }

  // ----- Operations ----------------------------------------------------------------------------

  function Notify(v: Vol, e: Event): seq<Event> {
    if v.silent then [] else [e]
  }

  function CreateFx(v: Vol): Effect {
    var v' := v.(created := true, state := Unmounted);
    Effect(v', Notify(v, Created(v.id)) + Notify(v, StateChanged(v.id, Unmounted)), OK)
  }

  /** The CHECKs that a destroy meets on its way, down through the volumes stacked above. */
  predicate CanDestroy(v: Vol)
    decreases v, 1
  {
    v.created && (v.state == Mounted ==> CanDestroyAll(v.stacked))
  }

  /** A stacked volume is destroyed and then dropped, with whatever the destroy leaves stacked above it. */
  predicate CanDestroyStacked(v: Vol)
    decreases v, 2
  {
    CanDestroy(v) && (v.state != Mounted ==> CanDropAll(v.stacked))
  }

  predicate CanDestroyAll(vs: seq<Vol>)
    decreases vs, 0
  {
    vs == [] || (CanDestroyStacked(vs[0]) && CanDestroyAll(vs[1..]))
  }

  /** The CHECKs of the destructor: nothing that goes away is still created. */
  predicate CanDrop(v: Vol)
    decreases v, 1
  {
    !v.created && CanDropAll(v.stacked)
  }

  predicate CanDropAll(vs: seq<Vol>)
    decreases vs, 0
  {
    vs == [] || (CanDrop(vs[0]) && CanDropAll(vs[1..]))
  }

  function DestroyFx(v: Vol): Effect
    decreases v, 2
  {
    var u := UnmountFx(v);
    var last := if v.state == Mounted then BadRemoval else Removed;
    Effect(u.vol.(state := last, created := false),
           u.events + Notify(v, StateChanged(v.id, last)) + Notify(v, Destroyed(v.id)), OK)
  }

  function DestroyAllEvents(vs: seq<Vol>): seq<Event>
    decreases vs, 0
  {
    if vs == [] then [] else DestroyFx(vs[0]).events + DestroyAllEvents(vs[1..])
  }

  function UnmountFx(v: Vol): Effect
    decreases v, 1
  {
    if v.state != Mounted then Effect(v, [], EBUSY)
    else
      Effect(v.(state := Unmounted, stacked := []),
             Notify(v, StateChanged(v.id, Ejecting)) + DestroyAllEvents(v.stacked)
             + Notify(v, StateChanged(v.id, Unmounted)), OK)
  }

  predicate Mountable(v: Vol) {
    v.state == Unmounted || v.state == Unmountable
  }

  /** One step of doMount, while the volume is being checked. */
  function MountStepFx(v: Vol, s: MountStep): Effect {
    match s
    case Announce(value) => Effect(v, Notify(v, MetadataChanged(v.id, value)), OK)
    case SetPath(path) => Effect(v.(path := path), Notify(v, PathChanged(v.id, path)), OK)
    case SetInternalPath(path) => Effect(v.(internalPath := path), Notify(v, InternalPathChanged(v.id, path)), OK)
    case Stack(id, kind) =>
      var c := CreateFx(NewVol(id, kind));
      Effect(v.(stacked := v.stacked + [c.vol]), c.events, OK)
  }

  function DoMountFx(v: Vol, steps: seq<MountStep>): Effect {
    if steps == [] then Effect(v, [], OK)
    else
      var before := DoMountFx(v, steps[..|steps| - 1]);
      var last := MountStepFx(before.vol, steps[|steps| - 1]);
      Effect(last.vol, before.events + last.events, OK)
  }

  function MountFx(v: Vol, script: MountScript): Effect {
    if !Mountable(v) then Effect(v, [], EBUSY)
    else
      var body := DoMountFx(v.(state := Checking), script.steps);
      var last := if script.res == OK then Mounted else Unmountable;
      Effect(body.vol.(state := last),
             Notify(v, StateChanged(v.id, Checking)) + body.events + Notify(v, StateChanged(v.id, last)), script.res)
  }

  function FormatFx(v: Vol, res: int): Effect {
    var u := UnmountFx(v);
    if !Mountable(u.vol) then Effect(u.vol, u.events, EBUSY)
    else
      Effect(u.vol.(state := Unmounted),
             u.events + Notify(v, StateChanged(v.id, Formatting)) + Notify(v, StateChanged(v.id, Unmounted)), res)
  }

  function SetSilentFx(v: Vol, silent: bool): Effect {
    if v.created then Effect(v, [], EBUSY) else Effect(v.(silent := silent), [], OK)
  }

  function SetMountFlagsFx(v: Vol, flags: int): Effect {
    if !Mountable(v) then Effect(v, [], EBUSY) else Effect(v.(mountFlags := flags), [], OK)
  }

  // ----- Runs ----------------------------------------------------------------------------------

  /** The operations of clients; Recycle is a destroy, a setSilent and a create in a row. */
  datatype Op =
    | Create
    | Destroy
    | Mount(script: MountScript)
    | Unmount
    | Format(res: int)
    | SetSilent(silent: bool)
    | SetMountFlags(flags: int)
    | Recycle(silent: bool)

  function RecycleFx(v: Vol, silent: bool): Effect {
    var d := DestroyFx(v);
    var c := CreateFx(SetSilentFx(d.vol, silent).vol);
    Effect(c.vol, d.events + c.events, OK)
  }

  function OpFx(v: Vol, op: Op): Effect {
    match op
    case Create => CreateFx(v)
    case Destroy => DestroyFx(v)
    case Mount(script) => MountFx(v, script)
    case Unmount => UnmountFx(v)
    case Format(res) => FormatFx(v, res)
    case SetSilent(silent) => SetSilentFx(v, silent)
    case SetMountFlags(flags) => SetMountFlagsFx(v, flags)
    case Recycle(silent) => RecycleFx(v, silent)
  }

  predicate ValidPath(v: Vol, path: seq<nat>) {
    path == [] || (path[0] < |v.stacked| && ValidPath(v.stacked[path[0]], path[1..]))
  }

  function Node(v: Vol, path: seq<nat>): Vol
    requires ValidPath(v, path)
  {
    if path == [] then v else Node(v.stacked[path[0]], path[1..])
  }

  /** An operation on the volume that a path of positions leads to. */
  function ApplyAt(v: Vol, path: seq<nat>, op: Op): Effect
    requires ValidPath(v, path)
  {
    if path == [] then OpFx(v, op)
    else
      var e := ApplyAt(v.stacked[path[0]], path[1..], op);
      Effect(v.(stacked := v.stacked[path[0] := e.vol]), e.events, e.res)
  }

  // ----- Life-cycle invariant ------------------------------------------------------------------

  /**
   Between calls: no volume is in a passing state, only mounted volumes carry others, and every stacked volume
   is created.
   */
  predicate Stable(v: Vol)
    decreases v, 1
  {
    && (v.created ==> v.state in {Unmounted, Mounted, Unmountable})
    && (!v.created ==> v.state in {Unmounted, Removed, BadRemoval})
    && (v.state != Mounted ==> v.stacked == [])
    && StableAll(v.stacked)
  }

  predicate StableAll(vs: seq<Vol>)
    decreases vs, 0
  {
    vs == [] || (vs[0].created && Stable(vs[0]) && StableAll(vs[1..]))
  }

  function StackedIds(steps: seq<MountStep>): set<string> {
    set s | s in steps && s.Stack? :: s.id
  }

  /** The ids of a volume and all volumes above it. */
  function Ids(v: Vol): set<string>
    decreases v, 1
  {
    {v.id} + IdsAll(v.stacked)
  }

  function IdsAll(vs: seq<Vol>): set<string>
    decreases vs, 0
  {
    if vs == [] then {} else Ids(vs[0]) + IdsAll(vs[1..])
  }

  /** Ids are unique among living volumes. */
  predicate Distinct(v: Vol)
    decreases v, 1
  {
    v.id !in IdsAll(v.stacked) && DistinctAll(v.stacked)
  }

  predicate DistinctAll(vs: seq<Vol>)
    decreases vs, 0
  {
    vs == [] || (Distinct(vs[0]) && Ids(vs[0]) !! IdsAll(vs[1..]) && DistinctAll(vs[1..]))
  }

  function StackSteps(op: Op): seq<MountStep> {
    if op.Mount? then op.script.steps else []
  }

  predicate DistinctStacks(steps: seq<MountStep>) {
    forall i, j :: 0 <= i < j < |steps| && steps[i].Stack? && steps[j].Stack? ==> steps[i].id != steps[j].id
  }

  predicate StacksNothing(steps: seq<MountStep>) {
    forall s :: s in steps ==> !s.Stack?
  }

  /** The CHECKs that an operation starts with or meets on its way. */
  predicate ChecksPass(v: Vol, op: Op) {
    match op
    case Create => !v.created
    case Destroy => CanDestroy(v)
    case Recycle(_) => CanDestroy(v)
    case Unmount => v.state == Mounted ==> CanDestroyAll(v.stacked)
    case Format(_) => v.state == Mounted ==> CanDestroyAll(v.stacked)
    case _ => true
  }

  /** What the life cycle asks of a call; root says that the volume is not stacked itself. */
  predicate KeepsLife(v: Vol, op: Op, root: bool) {
    match op
    case Create => root && !v.created
    case Destroy => root && v.created
    case Recycle(_) => v.created
    case Mount(script) => Mountable(v) ==> v.created && (script.res == OK || StacksNothing(script.steps))
    case _ => true
  }

  /** What the event brackets ask of a call. */
  predicate KeepsBrackets(v: Vol, op: Op) {
    match op
    case Mount(script) => Mountable(v) ==> (v.created || v.silent) && DistinctStacks(script.steps)
    case Unmount => v.state == Mounted ==> v.created || v.silent
    case Format(_) => v.state == Mounted || Mountable(v) ==> v.created || v.silent
    case _ => true
  }

  lemma {:induction false} StableCanDestroyAll(vs: seq<Vol>)
    requires StableAll(vs)
    ensures CanDestroyAll(vs)
    decreases vs, 0
  {
    if vs != [] {
      StableCanDestroy(vs[0]);
      StableCanDestroyAll(vs[1..]);
    }
  }

  /** In a stable tree no destroy ever meets a volume that is not created, nor drops one that is. */
  lemma {:induction false} StableCanDestroy(v: Vol)
    requires Stable(v) && v.created
    ensures CanDestroy(v) && CanDestroyStacked(v)
    decreases v, 1
  {
    StableCanDestroyAll(v.stacked);
  }

  lemma {:induction false} StableAllAppend(vs: seq<Vol>, v: Vol)
    requires StableAll(vs) && v.created && Stable(v)
    ensures StableAll(vs + [v])
  {
    if vs != [] {
      StableAllAppend(vs[1..], v);
      assert (vs + [v])[1..] == vs[1..] + [v];
    } else {
      assert vs + [v] == [v];
      assert [v][1..] == [];
    }
  }

  lemma {:induction false} StableAt(vs: seq<Vol>, k: nat)
    requires StableAll(vs) && k < |vs|
    ensures vs[k].created && Stable(vs[k])
  {
    if k > 0 {
      StableAt(vs[1..], k - 1);
    }
  }

  lemma {:induction false} StableAllUpdate(vs: seq<Vol>, k: nat, v: Vol)
    requires StableAll(vs) && k < |vs| && v.created && Stable(v)
    ensures StableAll(vs[k := v])
  {
    if k > 0 {
      StableAllUpdate(vs[1..], k - 1, v);
      assert vs[k := v][1..] == vs[1..][k - 1 := v];
    } else {
      assert vs[k := v][1..] == vs[1..];
    }
  }

  lemma StepKeeps(v: Vol, s: MountStep)
    requires StableAll(v.stacked)
    ensures var v' := MountStepFx(v, s).vol;
      && StableAll(v'.stacked)
      && v'.id == v.id && v'.created == v.created && v'.state == v.state && v'.silent == v.silent
      && (s.Stack? ==> v'.stacked != []) && (!s.Stack? ==> v'.stacked == v.stacked)
  {
    if s.Stack? {
      StableAllAppend(v.stacked, CreateFx(NewVol(s.id, s.kind)).vol);
    }
  }

  lemma StacksLast(steps: seq<MountStep>)
    requires steps != []
    ensures StacksNothing(steps) <==> StacksNothing(steps[..|steps| - 1]) && !steps[|steps| - 1].Stack?
  {
    assert steps == steps[..|steps| - 1] + [steps[|steps| - 1]];
  }

  lemma {:induction false} DoMountKeeps(v: Vol, steps: seq<MountStep>)
    requires StableAll(v.stacked)
    ensures var v' := DoMountFx(v, steps).vol;
      && StableAll(v'.stacked)
      && v'.id == v.id && v'.created == v.created && v'.state == v.state && v'.silent == v.silent
      && (StacksNothing(steps) ==> v'.stacked == v.stacked)
      && (!StacksNothing(steps) ==> v'.stacked != [])
  {
    hide StacksNothing, MountStepFx, StableAll;
    if steps != [] {
      var init, last := steps[..|steps| - 1], steps[|steps| - 1];
      DoMountKeeps(v, init);
      StepKeeps(DoMountFx(v, init).vol, last);
      StacksLast(steps);
    } else {
      NoneStack();
    }
  }

  lemma NoneStack()
    ensures StacksNothing([])
  {
  }

  lemma DestroyLeavesBare(v: Vol)
    requires Stable(v)
    ensures DestroyFx(v).vol.stacked == []
  {
    assert UnmountFx(v).vol.stacked == [];
  }

  lemma MountStableIff(v: Vol, script: MountScript)
    requires Stable(v) && Mountable(v)
    ensures Stable(MountFx(v, script).vol) <==> v.created && (script.res == OK || StacksNothing(script.steps))
  {
    hide DoMountFx;
    DoMountKeeps(v.(state := Checking), script.steps);
  }

  /**
   On one volume: no CHECK trips, the life-cycle invariant is kept, and a stacked volume stays created, if and
   only if the call is one the life cycle allows.
   */
  lemma OpStableIff(v: Vol, op: Op, root: bool)
    requires Stable(v) && (root || v.created)
    ensures ChecksPass(v, op) && Stable(OpFx(v, op).vol) && (root || OpFx(v, op).vol.created)
       <==> KeepsLife(v, op, root)
  {
    if v.created {
      StableCanDestroy(v);
    }
    match op {
      case Mount(script) =>
        if Mountable(v) {
          MountStableIff(v, script);
          DoMountKeeps(v.(state := Checking), script.steps);
        }
      case Create =>
      case Destroy => DestroyLeavesBare(v);
      case Unmount =>
      case Format(_) =>
      case Recycle(_) => DestroyLeavesBare(v);
      case _ =>
    }
  }

  /**
   And anywhere in the tree: an operation trips no CHECK and keeps the life-cycle invariant if and only if the
   call is one the life cycle allows on the volume it addresses.
   */
  lemma {:induction false} ApplyStableIff(v: Vol, path: seq<nat>, op: Op)
    requires Stable(v) && ValidPath(v, path)
    ensures ChecksPass(Node(v, path), op) && Stable(ApplyAt(v, path, op).vol)
       <==> KeepsLife(Node(v, path), op, path == [])
    ensures path != [] ==> ApplyAt(v, path, op).vol.created == v.created
  {
    hide OpFx, ChecksPass, KeepsLife;
    if path == [] {
      OpStableIff(v, op, true);
    } else {
      var k, c := path[0], v.stacked[path[0]];
      var c' := ApplyAt(c, path[1..], op).vol;
      StableAt(v.stacked, k);
      ApplyStableIff(c, path[1..], op);
      if path[1..] == [] {
        OpStableIff(c, op, false);
      }
      if c'.created && Stable(c') {
        StableAllUpdate(v.stacked, k, c');
      } else if StableAll(v.stacked[k := c']) {
        StableAt(v.stacked[k := c'], k);
      }
    }
  }

  /** One stacked volume of a stable list decides whether all can be destroyed. */
  lemma {:induction false} CanDestroyAllUpdate(vs: seq<Vol>, k: nat, v: Vol)
    requires StableAll(vs) && k < |vs|
    ensures CanDestroyAll(vs[k := v]) <==> CanDestroyStacked(v)
  {
    if k == 0 {
      assert vs[k := v][1..] == vs[1..];
      StableCanDestroyAll(vs[1..]);
    } else {
      assert vs[k := v][1..] == vs[1..][k - 1 := v];
      StableCanDestroy(vs[0]);
      CanDestroyAllUpdate(vs[1..], k - 1, v);
    }
  }

  /** A stable stacked volume can be destroyed and dropped after a call exactly if the life cycle allows the call. */
  lemma OpDestroyableIff(v: Vol, op: Op)
    requires Stable(v) && v.created && ChecksPass(v, op)
    ensures CanDestroyStacked(OpFx(v, op).vol) <==> KeepsLife(v, op, false)
  {
    OpStableIff(v, op, false);
    var v' := OpFx(v, op).vol;
    if KeepsLife(v, op, false) {
      StableCanDestroy(v');
    } else if op.Mount? {
      hide DoMountFx;
      DoMountKeeps(v.(state := Checking), op.script.steps);
      assert v'.stacked != [] && v'.stacked[0].created;
      assert !CanDrop(v'.stacked[0]);
    }
  }

  /**
   What the life cycle is for: after a call anywhere above a mounted volume that met no failing CHECK itself,
   the unmount of that volume meets none either, if and only if the life cycle allows the call.
   */
  lemma {:induction false} NextUnmountPassesIff(v: Vol, path: seq<nat>, op: Op)
    requires Stable(v) && v.state == Mounted && path != [] && ValidPath(v, path)
    requires ChecksPass(Node(v, path), op)
    ensures ChecksPass(ApplyAt(v, path, op).vol, Unmount) <==> KeepsLife(Node(v, path), op, false)
    decreases |path|
  {
    hide OpFx, KeepsLife, ChecksPass;
    var k, c := path[0], v.stacked[path[0]];
    var c' := ApplyAt(c, path[1..], op).vol;
    StableAt(v.stacked, k);
    CanDestroyAllUpdate(v.stacked, k, c');
    UnmountChecks(ApplyAt(v, path, op).vol);
    if path[1..] == [] {
      OpDestroyableIff(c, op);
    } else {
      NextUnmountPassesIff(c, path[1..], op);
      UnmountChecks(c');
    }
  }

  lemma UnmountChecks(v: Vol)
    ensures ChecksPass(v, Unmount) <==> (v.state == Mounted ==> CanDestroyAll(v.stacked))
  {
  }

  /** For instance, a stacked volume destroyed by itself trips the CHECK in the next unmount below it. */
  lemma LoneDestroyTripsUnmount(v: Vol, k: nat)
    requires Stable(v) && v.state == Mounted && k < |v.stacked|
    ensures ChecksPass(v.stacked[k], Destroy) && !ChecksPass(ApplyAt(v, [k], Destroy).vol, Unmount)
  {
    StableAt(v.stacked, k);
    StableCanDestroy(v.stacked[k]);
    NextUnmountPassesIff(v, [k], Destroy);
  }

  // ----- Event bracketing ----------------------------------------------------------------------

  datatype Brackets = Broken | Open(ids: set<string>)

  /** Created opens the bracket of an id, Destroyed closes it, anything else about the id needs it open. */
  function TrackOne(b: Brackets, e: Event): Brackets {
    if b.Broken? then Broken
    else
      match e
      case Created(id) => if id in b.ids then Broken else Open(b.ids + {id})
      case Destroyed(id) => if id in b.ids then Open(b.ids - {id}) else Broken
      case _ => if e.id in b.ids then b else Broken
  }

  function Track(b: Brackets, events: seq<Event>): Brackets {
    if events == [] then b else TrackOne(Track(b, events[..|events| - 1]), events[|events| - 1])
  }

  /** The ids whose volume is created and audible. */
  function Audible(v: Vol): (ids: set<string>)
    decreases v, 1
  {
    (if v.created && !v.silent then {v.id} else {}) + AudibleAll(v.stacked)
  }

  function AudibleAll(vs: seq<Vol>): set<string>
    decreases vs, 0
  {
    if vs == [] then {} else Audible(vs[0]) + AudibleAll(vs[1..])
  }

  lemma {:induction false} AudibleAreIds(v: Vol)
    ensures Audible(v) <= Ids(v)
    decreases v, 1
  {
    AudibleAllAreIds(v.stacked);
  }

  lemma {:induction false} AudibleAllAreIds(vs: seq<Vol>)
    ensures AudibleAll(vs) <= IdsAll(vs)
    decreases vs, 0
  {
    if vs != [] {
      AudibleAreIds(vs[0]);
      AudibleAllAreIds(vs[1..]);
    }
  }

  lemma {:induction false} TrackConcat(b: Brackets, s: seq<Event>, t: seq<Event>)
    ensures Track(b, s + t) == Track(Track(b, s), t)
  {
    if t == [] {
      assert s + t == s;
    } else {
      TrackConcat(b, s, t[..|t| - 1]);
      assert (s + t)[..|s + t| - 1] == s + t[..|t| - 1];
    }
  }

  lemma TrackNone(b: Brackets)
    ensures Track(b, []) == b
  {
  }

  lemma TrackSingle(b: Brackets, e: Event)
    ensures Track(b, [e]) == TrackOne(b, e)
  {
    assert [e][..0] == [];
  }

  lemma TrackNotify(b: Brackets, v: Vol, e: Event)
    ensures Track(b, Notify(v, e)) == if v.silent then b else TrackOne(b, e)
  {
    TrackSingle(b, e);
  }

  /** The own id of a volume, if its bracket is open. */
  function OwnAudible(v: Vol): set<string> {
    if v.created && !v.silent then {v.id} else {}
  }

  lemma UnfoldVol(v: Vol)
    ensures Ids(v) == {v.id} + IdsAll(v.stacked)
    ensures Audible(v) == OwnAudible(v) + AudibleAll(v.stacked)
    ensures Distinct(v) <==> v.id !in IdsAll(v.stacked) && DistinctAll(v.stacked)
  {
  }

  lemma TrackOwn(ids: set<string>, v: Vol, e: Event)
    requires e.id == v.id && !e.Created? && !e.Destroyed?
    requires v.silent || v.id in ids
    ensures Track(Open(ids), Notify(v, e)) == Open(ids)
  {
    TrackNotify(Open(ids), v, e);
  }

  /** What is not created is not heard. */
  lemma {:induction false} DroppedAreSilent(vs: seq<Vol>)
    requires CanDropAll(vs)
    ensures AudibleAll(vs) == {}
    decreases vs
  {
    if vs != [] {
      DroppedAreSilent(vs[0].stacked);
      DroppedAreSilent(vs[1..]);
    }
  }

  /** The ids open above a volume after an unmount. */
  function AudibleLeft(v: Vol): set<string> {
    if v.state == Mounted then {} else AudibleAll(v.stacked)
  }

  /** Destroying closes the brackets of the volume and of everything it destroys above it, and touches no other. */
  lemma {:induction false} DestroyTracks(v: Vol, others: set<string>)
    requires CanDestroy(v) && Distinct(v) && others !! Ids(v)
    ensures Track(Open(others + Audible(v)), DestroyFx(v).events) == Open(others + AudibleLeft(v))
    decreases v, 2
  {
    hide Track, DestroyAllEvents, IdsAll, CanDestroyAll;
    UnfoldVol(v);
    AudibleAllAreIds(v.stacked);
    var own, left := OwnAudible(v), others + AudibleLeft(v);
    var u := UnmountFx(v);
    var last := StateChanged(v.id, if v.state == Mounted then BadRemoval else Removed);
    UnmountTracks(v, others);
    TrackConcat(Open(others + Audible(v)), u.events, Notify(v, last));
    TrackOwn(left + own, v, last);
    TrackConcat(Open(others + Audible(v)), u.events + Notify(v, last), Notify(v, Destroyed(v.id)));
    TrackNotify(Open(left + own), v, Destroyed(v.id));
    assert left + own - {v.id} == left;
  }

  lemma {:induction false} DestroyAllTracks(vs: seq<Vol>, others: set<string>)
    requires CanDestroyAll(vs) && DistinctAll(vs) && others !! IdsAll(vs)
    ensures Track(Open(others + AudibleAll(vs)), DestroyAllEvents(vs)) == Open(others)
    decreases vs, 0
  {
    hide Track, Ids, DestroyFx, Audible, Distinct, CanDestroy;
    if vs == [] {
      TrackNone(Open(others));
      assert others + AudibleAll(vs) == others;
    } else {
      var rest := others + AudibleAll(vs[1..]);
      AudibleAllAreIds(vs[1..]);
      DestroyTracks(vs[0], rest);
      if vs[0].state != Mounted {
        DroppedAreSilent(vs[0].stacked);
      }
      assert rest + {} == rest;
      DestroyAllTracks(vs[1..], others);
      assert others + AudibleAll(vs) == rest + Audible(vs[0]);
      TrackConcat(Open(others + AudibleAll(vs)), DestroyFx(vs[0]).events, DestroyAllEvents(vs[1..]));
    }
  }

  /** The volumes above are destroyed in the order in which they were stacked. */
  lemma {:induction false} DestroyInOrder(vs: seq<Vol>, k: nat)
    requires k <= |vs|
    ensures DestroyAllEvents(vs) == DestroyAllEvents(vs[..k]) + DestroyAllEvents(vs[k..])
  {
    hide DestroyFx;
    if k == 0 {
      assert vs[0..] == vs;
    } else {
      assert vs[..k][1..] == vs[1..][..k - 1] && vs[1..][k - 1..] == vs[k..];
      DestroyInOrder(vs[1..], k - 1);
    }
  }

  /** When a volume leaves the ejecting state, every bracket above it has closed. */
  lemma {:induction false} StackedCloseFirst(v: Vol, others: set<string>)
    requires v.created || v.silent
    requires CanDestroyAll(v.stacked) && Distinct(v) && others !! Ids(v)
    ensures Track(Open(others + Audible(v)), Notify(v, StateChanged(v.id, Ejecting)) + DestroyAllEvents(v.stacked))
         == Open(others + OwnAudible(v))
    decreases v, 0
  {
    var own := OwnAudible(v);
    TrackOwn(others + Audible(v), v, StateChanged(v.id, Ejecting));
    TrackConcat(Open(others + Audible(v)), Notify(v, StateChanged(v.id, Ejecting)), DestroyAllEvents(v.stacked));
    DestroyAllTracks(v.stacked, others + own);
    assert others + Audible(v) == others + own + AudibleAll(v.stacked);
  }

  lemma {:induction false} UnmountTracks(v: Vol, others: set<string>)
    requires v.state == Mounted ==> (v.created || v.silent) && CanDestroyAll(v.stacked)
    requires Distinct(v) && others !! Ids(v)
    ensures Track(Open(others + Audible(v)), UnmountFx(v).events) == Open(others + AudibleLeft(v) + OwnAudible(v))
    decreases v, 1
  {
    if v.state == Mounted {
      hide Track, DestroyAllEvents;
      var head := Notify(v, StateChanged(v.id, Ejecting)) + DestroyAllEvents(v.stacked);
      StackedCloseFirst(v, others);
      TrackConcat(Open(others + Audible(v)), head, Notify(v, StateChanged(v.id, Unmounted)));
      TrackOwn(others + OwnAudible(v), v, StateChanged(v.id, Unmounted));
      assert others + {} == others;
    } else {
      TrackNone(Open(others + Audible(v)));
      assert others + Audible(v) == others + AudibleLeft(v) + OwnAudible(v);
    }
  }

  lemma CreateTracks(v: Vol, ids: set<string>)
    requires v.id !in ids
    ensures Track(Open(ids), CreateFx(v).events) == Open(ids + OwnAudible(CreateFx(v).vol))
  {
    var created := if v.silent then ids else ids + {v.id};
    TrackConcat(Open(ids), Notify(v, Created(v.id)), Notify(v, StateChanged(v.id, Unmounted)));
    TrackNotify(Open(ids), v, Created(v.id));
    TrackOwn(created, v, StateChanged(v.id, Unmounted));
  }

  lemma {:induction false} AppendVol(vs: seq<Vol>, v: Vol)
    ensures AudibleAll(vs + [v]) == AudibleAll(vs) + Audible(v)
    ensures IdsAll(vs + [v]) == IdsAll(vs) + Ids(v)
    ensures DistinctAll(vs) && Distinct(v) && IdsAll(vs) !! Ids(v) ==> DistinctAll(vs + [v])
  {
    if vs == [] {
      assert vs + [v] == [v];
      assert [v][1..] == [];
    } else {
      assert (vs + [v])[1..] == vs[1..] + [v];
      AppendVol(vs[1..], v);
    }
  }

  /** An effect moves the open brackets as it moves the audible volumes, and brings in no ids but the news. */
  ghost predicate Moves(v: Vol, e: Effect, news: set<string>, others: set<string>) {
    && Distinct(e.vol)
    && Ids(e.vol) <= Ids(v) + news
    && Track(Open(others + Audible(v)), e.events) == Open(others + Audible(e.vol))
  }

  /** No events, and no change to who is there. */
  lemma QuietMoves(v: Vol, e: Effect, news: set<string>, others: set<string>)
    requires Distinct(v) && e.events == []
    requires e.vol.id == v.id && e.vol.stacked == v.stacked
    requires OwnAudible(e.vol) == OwnAudible(v)
    ensures Moves(v, e, news, others)
  {
    TrackNone(Open(others + Audible(v)));
  }

  /** An effect that leaves what is stacked alone, or takes all of it away. */
  lemma PlainMoves(v: Vol, e: Effect, news: set<string>, others: set<string>)
    requires Distinct(v) && e.vol.id == v.id && (e.vol.stacked == v.stacked || e.vol.stacked == [])
    requires Track(Open(others + Audible(v)), e.events) == Open(others + AudibleAll(e.vol.stacked) + OwnAudible(e.vol))
    ensures Moves(v, e, news, others)
  {
    hide Track;
    UnfoldVol(e.vol);
    UnfoldVol(v);
    assert others + Audible(e.vol) == others + AudibleAll(e.vol.stacked) + OwnAudible(e.vol);
  }

  lemma StackTracks(v: Vol, s: MountStep, others: set<string>)
    requires s.Stack? && Distinct(v) && others !! Ids(v) && s.id !in others + Ids(v)
    ensures var e := MountStepFx(v, s);
      && Distinct(e.vol)
      && Ids(e.vol) == Ids(v) + {s.id}
      && Audible(e.vol) == Audible(v) + {s.id}
      && Track(Open(others + Audible(v)), e.events) == Open(others + Audible(e.vol))
  {
    hide Track, IdsAll, AudibleAll, DistinctAll;
    var e, c := MountStepFx(v, s), NewVol(s.id, s.kind);
    NewVolAlone(c);
    UnfoldVol(v);
    UnfoldVol(e.vol);
    AppendVol(v.stacked, CreateFx(c).vol);
    AudibleAreIds(v);
    CreateTracks(c, others + Audible(v));
    assert others + Audible(v) + {s.id} == others + Audible(e.vol);
  }

  lemma NewVolAlone(c: Vol)
    requires c.stacked == [] && !c.silent
    ensures var v := CreateFx(c).vol; Ids(v) == {c.id} && Audible(v) == {c.id} && Distinct(v)
  {
  }

  /** What a step of doMount broadcasts about the volume itself. */
  lemma OwnStepTracks(v: Vol, s: MountStep, ids: set<string>)
    requires !s.Stack? && (v.silent || v.id in ids)
    ensures Track(Open(ids), MountStepFx(v, s).events) == Open(ids)
  {
    hide Track;
    match s
    case Announce(value) => TrackOwn(ids, v, MetadataChanged(v.id, value));
    case SetPath(path) => TrackOwn(ids, v, PathChanged(v.id, path));
    case SetInternalPath(path) => TrackOwn(ids, v, InternalPathChanged(v.id, path));
  }

  lemma MountStepTracks(v: Vol, s: MountStep, others: set<string>)
    requires (v.created || v.silent) && Distinct(v) && others !! Ids(v)
    requires s.Stack? ==> s.id !in others + Ids(v)
    ensures var e := MountStepFx(v, s);
      && e.vol.id == v.id && e.vol.created == v.created && e.vol.silent == v.silent
      && Distinct(e.vol)
      && Ids(e.vol) == Ids(v) + (if s.Stack? then {s.id} else {})
      && Audible(e.vol) == Audible(v) + (if s.Stack? then {s.id} else {})
      && Track(Open(others + Audible(v)), e.events) == Open(others + Audible(e.vol))
  {
    hide Track, IdsAll, AudibleAll, DistinctAll;
    if s.Stack? {
      StackTracks(v, s, others);
    } else {
      UnfoldVol(v);
      UnfoldVol(MountStepFx(v, s).vol);
      OwnStepTracks(v, s, others + Audible(v));
    }
  }

  lemma {:induction false} DoMountTracks(v: Vol, steps: seq<MountStep>, others: set<string>)
    requires (v.created || v.silent) && Distinct(v) && others !! Ids(v)
    requires DistinctStacks(steps) && StackedIds(steps) !! others + Ids(v)
    ensures var e := DoMountFx(v, steps);
      && e.vol.id == v.id && e.vol.created == v.created && e.vol.silent == v.silent
      && Distinct(e.vol)
      && Ids(e.vol) <= Ids(v) + StackedIds(steps)
      && StackedIds(steps) <= Audible(e.vol)
      && Track(Open(others + Audible(v)), e.events) == Open(others + Audible(e.vol))
  {
    hide Ids, Audible, Distinct, MountStepFx, Track;
    if steps == [] {
      TrackNone(Open(others + Audible(v)));
    } else {
      var init, last := steps[..|steps| - 1], steps[|steps| - 1];
      PrefixStacks(steps);
      DoMountTracks(v, init, others);
      var before := DoMountFx(v, init);
      TrackConcat(Open(others + Audible(v)), before.events, MountStepFx(before.vol, last).events);
      MountStepTracks(before.vol, last, others);
    }
  }

  lemma PrefixStacks(steps: seq<MountStep>)
    requires steps != []
    ensures var init, last := steps[..|steps| - 1], steps[|steps| - 1];
      && StackedIds(steps) == StackedIds(init) + (if last.Stack? then {last.id} else {})
      && (DistinctStacks(steps)
          <==> DistinctStacks(init) && (last.Stack? ==> last.id !in StackedIds(init)))
  {
    var init, last := steps[..|steps| - 1], steps[|steps| - 1];
    assert steps == init + [last];
    if last.Stack? && DistinctStacks(init) && last.id !in StackedIds(init) {
      forall i | 0 <= i < |init| && steps[i].Stack?
        ensures steps[i].id != last.id
      {
        assert init[i] in init;
      }
    }
  }

  lemma {:induction false} BrokenStays(events: seq<Event>)
    ensures Track(Broken, events) == Broken
  {
    if events != [] {
      BrokenStays(events[..|events| - 1]);
    }
  }

  /** Stacking one id twice opens its bracket a second time. */
  lemma {:induction false} DoubleStackBreaks(v: Vol, steps: seq<MountStep>, others: set<string>)
    requires (v.created || v.silent) && Distinct(v) && others !! Ids(v)
    requires !DistinctStacks(steps) && StackedIds(steps) !! others + Ids(v)
    ensures Track(Open(others + Audible(v)), DoMountFx(v, steps).events) == Broken
  {
    hide Ids, Audible, Distinct, Track;
    var init, last := steps[..|steps| - 1], steps[|steps| - 1];
    PrefixStacks(steps);
    var before := DoMountFx(v, init);
    var step := MountStepFx(before.vol, last);
    TrackConcat(Open(others + Audible(v)), before.events, step.events);
    if !DistinctStacks(init) {
      DoubleStackBreaks(v, init, others);
      BrokenStays(step.events);
    } else {
      DoMountTracks(v, init, others);
      CreateTwiceBreaks(NewVol(last.id, last.kind), others + Audible(before.vol));
    }
  }

  lemma CreateTwiceBreaks(v: Vol, ids: set<string>)
    requires !v.silent && v.id in ids
    ensures Track(Open(ids), CreateFx(v).events) == Broken
  {
    TrackConcat(Open(ids), Notify(v, Created(v.id)), Notify(v, StateChanged(v.id, Unmounted)));
    TrackNotify(Open(ids), v, Created(v.id));
    BrokenStays(Notify(v, StateChanged(v.id, Unmounted)));
  }

  lemma MountMoves(v: Vol, script: MountScript, others: set<string>)
    requires (v.created || v.silent) && Distinct(v) && others !! Ids(v)
    requires StackedIds(script.steps) !! others + Ids(v)
    ensures !Mountable(v) || DistinctStacks(script.steps)
        ==> Moves(v, MountFx(v, script), StackedIds(script.steps), others)
    ensures Mountable(v) && !DistinctStacks(script.steps)
        ==> Track(Open(others + Audible(v)), MountFx(v, script).events) == Broken
  {
    if Mountable(v) {
      hide DoMountFx, Track;
      var checking := v.(state := Checking);
      var body := DoMountFx(checking, script.steps);
      var last := StateChanged(v.id, if script.res == OK then Mounted else Unmountable);
      var head := Notify(v, StateChanged(v.id, Checking));
      TrackOwn(others + Audible(v), v, StateChanged(v.id, Checking));
      TrackConcat(Open(others + Audible(v)), head, body.events);
      TrackConcat(Open(others + Audible(v)), head + body.events, Notify(v, last));
      if DistinctStacks(script.steps) {
        DoMountTracks(checking, script.steps, others);
        TrackOwn(others + Audible(body.vol), body.vol, last);
      } else {
        DoubleStackBreaks(checking, script.steps, others);
        BrokenStays(Notify(v, last));
      }
    } else {
      QuietMoves(v, MountFx(v, script), StackedIds(script.steps), others);
    }
  }

  /** The first event already finds no open bracket. */
  lemma FirstEventBreaks(v: Vol, e: Event, rest: seq<Event>, others: set<string>)
    requires !v.silent && e.id == v.id && !e.Created? && v.id !in others
    ensures Track(Open(others), Notify(v, e) + rest) == Broken
  {
    TrackConcat(Open(others), Notify(v, e), rest);
    TrackNotify(Open(others), v, e);
    BrokenStays(rest);
  }

  /**
   When a mount is heard properly: the events move the open brackets as the volumes heard, if and only if the
   mount is refused, or the volume is created or silent and no id is stacked twice.
   */
  lemma MountBracketsIff(v: Vol, script: MountScript, others: set<string>)
    requires Distinct(v) && others !! Ids(v) && StackedIds(script.steps) !! others + Ids(v)
    ensures var e := MountFx(v, script);
      Track(Open(others + Audible(v)), e.events) == Open(others + Audible(e.vol))
      <==> KeepsBrackets(v, Mount(script))
  {
    hide Track;
    if v.created || v.silent {
      MountMoves(v, script, others);
    } else if Mountable(v) {
      var body := DoMountFx(v.(state := Checking), script.steps);
      var last := Notify(v, StateChanged(v.id, if script.res == OK then Mounted else Unmountable));
      NotOpen(v, others);
      FirstEventBreaks(v, StateChanged(v.id, Checking), body.events + last, others + Audible(v));
      assert MountFx(v, script).events == Notify(v, StateChanged(v.id, Checking)) + (body.events + last);
    } else {
      TrackNone(Open(others + Audible(v)));
    }
  }

  /** A volume that is not created has no open bracket. */
  lemma NotOpen(v: Vol, others: set<string>)
    requires !v.created && Distinct(v) && others !! Ids(v)
    ensures v.id !in others + Audible(v)
  {
    AudibleAllAreIds(v.stacked);
  }

  lemma UnmountMoves(v: Vol, others: set<string>)
    requires ChecksPass(v, Unmount) && KeepsBrackets(v, Unmount) && Distinct(v) && others !! Ids(v)
    ensures Moves(v, UnmountFx(v), {}, others)
  {
    hide Track;
    UnmountTracks(v, others);
    PlainMoves(v, UnmountFx(v), {}, others);
  }

  /** Likewise for an unmount: it must be refused, or the volume be created or silent. */
  lemma UnmountBracketsIff(v: Vol, others: set<string>)
    requires ChecksPass(v, Unmount) && Distinct(v) && others !! Ids(v)
    ensures var e := UnmountFx(v);
      Track(Open(others + Audible(v)), e.events) == Open(others + Audible(e.vol))
      <==> KeepsBrackets(v, Unmount)
  {
    hide Track;
    if KeepsBrackets(v, Unmount) {
      UnmountMoves(v, others);
    } else {
      var rest := DestroyAllEvents(v.stacked) + Notify(v, StateChanged(v.id, Unmounted));
      NotOpen(v, others);
      FirstEventBreaks(v, StateChanged(v.id, Ejecting), rest, others + Audible(v));
      assert UnmountFx(v).events == Notify(v, StateChanged(v.id, Ejecting)) + rest;
    }
  }

  /** The last two events of a format, which are the first ones if it need not unmount. */
  function FormatTail(v: Vol): seq<Event> {
    Notify(v, StateChanged(v.id, Formatting)) + Notify(v, StateChanged(v.id, Unmounted))
  }

  lemma FormatMoves(v: Vol, res: int, others: set<string>)
    requires ChecksPass(v, Format(res)) && KeepsBrackets(v, Format(res)) && Distinct(v) && others !! Ids(v)
    ensures Moves(v, FormatFx(v, res), {}, others)
  {
    hide Track, DestroyAllEvents;
    var events, formatting := UnmountFx(v).events, Notify(v, StateChanged(v.id, Formatting));
    UnmountTracks(v, others);
    if v.state == Mounted || Mountable(v) {
      var ids := others + AudibleLeft(v) + OwnAudible(v);
      TrackConcat(Open(others + Audible(v)), events, formatting);
      TrackOwn(ids, v, StateChanged(v.id, Formatting));
      TrackConcat(Open(others + Audible(v)), events + formatting, Notify(v, StateChanged(v.id, Unmounted)));
      TrackOwn(ids, v, StateChanged(v.id, Unmounted));
    }
    PlainMoves(v, FormatFx(v, res), {}, others);
  }

  /** Likewise for a format: the volume must be created or silent, or the format be refused. */
  lemma FormatBracketsIff(v: Vol, res: int, others: set<string>)
    requires ChecksPass(v, Format(res)) && Distinct(v) && others !! Ids(v)
    ensures var e := FormatFx(v, res);
      Track(Open(others + Audible(v)), e.events) == Open(others + Audible(e.vol))
      <==> KeepsBrackets(v, Format(res))
  {
    hide Track, DestroyAllEvents;
    if KeepsBrackets(v, Format(res)) {
      FormatMoves(v, res, others);
    } else {
      NotOpen(v, others);
      if v.state == Mounted {
        var rest := DestroyAllEvents(v.stacked) + Notify(v, StateChanged(v.id, Unmounted)) + FormatTail(v);
        FirstEventBreaks(v, StateChanged(v.id, Ejecting), rest, others + Audible(v));
        assert FormatFx(v, res).events == Notify(v, StateChanged(v.id, Ejecting)) + rest;
      } else {
        var rest := Notify(v, StateChanged(v.id, Unmounted));
        FirstEventBreaks(v, StateChanged(v.id, Formatting), rest, others + Audible(v));
        assert FormatFx(v, res).events == FormatTail(v);
      }
    }
  }

  lemma DestroyMoves(v: Vol, others: set<string>)
    requires CanDestroy(v) && Distinct(v) && others !! Ids(v)
    ensures Moves(v, DestroyFx(v), {}, others)
  {
    hide Track;
    DestroyTracks(v, others);
    assert others + AudibleLeft(v) + OwnAudible(DestroyFx(v).vol) == others + AudibleLeft(v);
    PlainMoves(v, DestroyFx(v), {}, others);
  }

  lemma CreateMoves(v: Vol, others: set<string>)
    requires !v.created && Distinct(v) && others !! Ids(v)
    ensures Moves(v, CreateFx(v), {}, others)
  {
    hide Track;
    NotOpen(v, others);
    CreateTracks(v, others + Audible(v));
    assert others + Audible(v) == others + AudibleAll(v.stacked);
    PlainMoves(v, CreateFx(v), {}, others);
  }

  lemma RecycleMoves(v: Vol, silent: bool, others: set<string>)
    requires CanDestroy(v) && Distinct(v) && others !! Ids(v)
    ensures Moves(v, RecycleFx(v, silent), {}, others)
  {
    hide Track;
    var d := DestroyFx(v);
    var back := SetSilentFx(d.vol, silent).vol;
    DestroyTracks(v, others);
    AudibleAllAreIds(v.stacked);
    CreateTracks(back, others + AudibleLeft(v));
    TrackConcat(Open(others + Audible(v)), d.events, CreateFx(back).events);
    PlainMoves(v, RecycleFx(v, silent), {}, others);
  }

  /** The other ids that are open do not clash with the volume's, nor with those it is about to stack. */
  ghost predicate Apart(v: Vol, op: Op, others: set<string>) {
    others !! Ids(v) && StackedIds(StackSteps(op)) !! others + Ids(v)
  }

  /** Every operation moves the set of open brackets exactly as it moves the set of audible volumes. */
  lemma OpMoves(v: Vol, op: Op, others: set<string>)
    requires Distinct(v) && ChecksPass(v, op) && KeepsBrackets(v, op) && Apart(v, op, others)
    ensures Moves(v, OpFx(v, op), StackedIds(StackSteps(op)), others)
  {
    hide DestroyFx, RecycleFx, CreateFx, Ids, Distinct, Track, Audible;
    var news := StackedIds(StackSteps(op));
    match op {
      case Create => CreateMoves(v, others);
      case Destroy => DestroyMoves(v, others);
      case Recycle(silent) => RecycleMoves(v, silent, others);
      case Mount(script) =>
        if v.created || v.silent {
          MountMoves(v, script, others);
        } else {
          QuietMoves(v, OpFx(v, op), news, others);
        }
      case Unmount => UnmountMoves(v, others);
      case Format(res) => FormatMoves(v, res, others);
      case SetSilent(_) => QuietMoves(v, OpFx(v, op), news, others);
      case SetMountFlags(_) => QuietMoves(v, OpFx(v, op), news, others);
    }
  }

  /** Among the calls that trip no CHECK, exactly those that keep the brackets are heard properly. */
  lemma OpBracketsIff(v: Vol, op: Op, others: set<string>)
    requires Distinct(v) && ChecksPass(v, op) && Apart(v, op, others)
    ensures var e := OpFx(v, op);
      Track(Open(others + Audible(v)), e.events) == Open(others + Audible(e.vol)) <==> KeepsBrackets(v, op)
  {
    hide DestroyFx, RecycleFx, CreateFx, MountFx, FormatFx, UnmountFx, ChecksPass, Ids, Distinct, Track, Audible;
    match op
    case Mount(script) => MountBracketsIff(v, script, others);
    case Unmount => UnmountBracketsIff(v, others);
    case Format(res) => FormatBracketsIff(v, res, others);
    case _ => OpMoves(v, op, others);
  }

  lemma {:induction false} SplitAt(vs: seq<Vol>, k: nat, v: Vol) returns (audible: set<string>, ids: set<string>)
    requires k < |vs| && DistinctAll(vs)
    ensures audible <= ids && ids !! Ids(vs[k]) && Distinct(vs[k])
    ensures AudibleAll(vs) == audible + Audible(vs[k]) && IdsAll(vs) == ids + Ids(vs[k])
    ensures AudibleAll(vs[k := v]) == audible + Audible(v) && IdsAll(vs[k := v]) == ids + Ids(v)
    ensures ids !! Ids(v) && Distinct(v) ==> DistinctAll(vs[k := v])
  {
    if k == 0 {
      audible, ids := AudibleAll(vs[1..]), IdsAll(vs[1..]);
      AudibleAllAreIds(vs[1..]);
      assert vs[k := v][1..] == vs[1..];
    } else {
      assert vs[k := v][1..] == vs[1..][k - 1 := v];
      audible, ids := SplitAt(vs[1..], k - 1, v);
      AudibleAreIds(vs[0]);
      audible, ids := audible + Audible(vs[0]), ids + Ids(vs[0]);
    }
  }

  /** The ids around position k of a volume: those open elsewhere, its own, and those of the neighbours. */
  ghost predicate Around(v: Vol, k: nat, others: set<string>, around: set<string>, ids: set<string>)
    requires k < |v.stacked|
  {
    && Distinct(v.stacked[k])
    && (others + ids) !! Ids(v.stacked[k])
    && around <= others + ids && ids + Ids(v.stacked[k]) == Ids(v)
    && others + Audible(v) == around + Audible(v.stacked[k])
  }

  lemma EnterStacked(v: Vol, k: nat, c: Vol, others: set<string>) returns (around: set<string>, ids: set<string>)
    requires k < |v.stacked| && Distinct(v) && others !! Ids(v)
    ensures Around(v, k, others, around, ids)
    ensures var v' := v.(stacked := v.stacked[k := c]);
      && Ids(v') == ids + Ids(c)
      && others + Audible(v') == around + Audible(c)
      && (Distinct(c) && ids !! Ids(c) ==> Distinct(v'))
  {
    hide Ids, Audible, Distinct;
    var audible;
    audible, ids := SplitAt(v.stacked, k, c) by {
      assert DistinctAll(v.stacked) by {
        UnfoldVol(v);
      }
    }
    UnfoldVol(v);
    UnfoldVol(v.(stacked := v.stacked[k := c]));
    around, ids := others + OwnAudible(v) + audible, ids + {v.id};
  }

  /** An operation anywhere in the tree is heard properly if and only if it keeps the brackets where it is. */
  lemma {:induction false} ApplyBracketsIff(v: Vol, path: seq<nat>, op: Op, others: set<string>)
    requires Distinct(v) && ValidPath(v, path) && ChecksPass(Node(v, path), op) && Apart(v, op, others)
    ensures var e := ApplyAt(v, path, op);
      Track(Open(others + Audible(v)), e.events) == Open(others + Audible(e.vol))
      <==> KeepsBrackets(Node(v, path), op)
    ensures KeepsBrackets(Node(v, path), op) ==> Moves(v, ApplyAt(v, path, op), StackedIds(StackSteps(op)), others)
  {
    hide OpFx, Track, KeepsBrackets, ChecksPass, StackedIds, StackSteps, Ids, Audible, Distinct;
    if path == [] {
      OpBracketsIff(v, op, others);
      if KeepsBrackets(v, op) {
        OpMoves(v, op, others);
      }
    } else {
      var c := v.stacked[path[0]];
      var around, ids := EnterStacked(v, path[0], ApplyAt(c, path[1..], op).vol, others);
      ApplyBracketsIff(c, path[1..], op, around);
    }
  }

  // ----- Runs of calls -------------------------------------------------------------------------

  datatype Call = Call(path: seq<nat>, op: Op)

  ghost predicate IsCall(v: Vol, c: Call, v': Vol) {
    ValidPath(v, c.path) && v' == ApplyAt(v, c.path, c.op).vol
  }

  /** A run of calls; it meets no failing CHECK, and no id is given to a second volume. */
  ghost predicate IsRun(vols: seq<Vol>, calls: seq<Call>) {
    && |vols| == |calls| + 1
    && forall i :: 0 <= i < |calls| ==>
         && IsCall(vols[i], calls[i], vols[i + 1])
         && ChecksPass(Node(vols[i], calls[i].path), calls[i].op)
         && Apart(vols[i], calls[i].op, {})
  }

  /** All events that the first n calls broadcast. */
  ghost function EventsOf(vols: seq<Vol>, calls: seq<Call>, n: nat): seq<Event>
    requires IsRun(vols, calls) && n <= |calls|
  {
    if n == 0 then []
    else
      assert IsCall(vols[n - 1], calls[n - 1], vols[n]);
      EventsOf(vols, calls, n - 1) + ApplyAt(vols[n - 1], calls[n - 1].path, calls[n - 1].op).events
  }

  /** After n calls exactly the created and audible volumes have their brackets open. */
  ghost predicate Bracketed(vols: seq<Vol>, calls: seq<Call>, n: nat)
    requires IsRun(vols, calls) && n <= |calls|
  {
    Track(Open({}), EventsOf(vols, calls, n)) == Open(Audible(vols[n]))
  }

  ghost predicate CallKeepsBrackets(vols: seq<Vol>, calls: seq<Call>, i: nat)
    requires IsRun(vols, calls) && i < |calls|
  {
    assert IsCall(vols[i], calls[i], vols[i + 1]);
    KeepsBrackets(Node(vols[i], calls[i].path), calls[i].op)
  }

  /**
   Over every run that meets no failing CHECK, on a volume and on anything stacked above it: the events form
   proper brackets at each moment, with exactly the created and audible volumes' open, if and only if every
   call keeps the brackets.
   */
  lemma {:induction false} RunsAreBracketed(vols: seq<Vol>, calls: seq<Call>, n: nat)
    requires IsRun(vols, calls) && n <= |calls|
    requires Audible(vols[0]) == {} && Distinct(vols[0])
    ensures (forall j: nat :: j <= n ==> Bracketed(vols, calls, j))
       <==> (forall i: nat :: i < n ==> CallKeepsBrackets(vols, calls, i))
    ensures (forall j: nat :: j <= n ==> Bracketed(vols, calls, j)) ==> Distinct(vols[n])
  {
    hide Track, Audible, ApplyAt, Distinct, KeepsBrackets, ChecksPass;
    if n == 0 {
      TrackNone(Open({}));
    } else {
      RunsAreBracketed(vols, calls, n - 1);
      if forall i: nat :: i < n - 1 ==> CallKeepsBrackets(vols, calls, i) {
        var v, call := vols[n - 1], calls[n - 1];
        assert IsCall(v, call, vols[n]);
        assert Bracketed(vols, calls, n - 1);
        ApplyBracketsIff(v, call.path, call.op, {});
        TrackConcat(Open({}), EventsOf(vols, calls, n - 1), ApplyAt(v, call.path, call.op).events);
        assert {} + Audible(v) == Audible(v) && {} + Audible(vols[n]) == Audible(vols[n]);
        assert Bracketed(vols, calls, n) <==> CallKeepsBrackets(vols, calls, n - 1);
      }
    }
  }

  /** Clients that keep to the life cycle never make a CHECK fail, and the invariant holds between their calls. */
  lemma {:induction false} RunsStayStable(vols: seq<Vol>, calls: seq<Call>, n: nat)
    requires |vols| == |calls| + 1 && n <= |calls| && Stable(vols[0])
    requires forall i :: 0 <= i < |calls| ==> IsCall(vols[i], calls[i], vols[i + 1])
    requires forall i :: 0 <= i < |calls| ==>
      ValidPath(vols[i], calls[i].path) && KeepsLife(Node(vols[i], calls[i].path), calls[i].op, calls[i].path == [])
    ensures Stable(vols[n])
    ensures n < |calls| ==> ChecksPass(Node(vols[n], calls[n].path), calls[n].op)
  {
    hide Stable, ApplyAt, ChecksPass, KeepsLife;
    if n > 0 {
      RunsStayStable(vols, calls, n - 1);
      assert IsCall(vols[n - 1], calls[n - 1], vols[n]);
      ApplyStableIff(vols[n - 1], calls[n - 1].path, calls[n - 1].op);
    }
    if n < |calls| {
      ApplyStableIff(vols[n], calls[n].path, calls[n].op);
    }
  }

  /** Why a run starts with create(): a volume mounted before it is created is heard of outside any bracket. */
  lemma MountBeforeCreateBreaks(id: string, kind: Kind, script: MountScript, others: set<string>)
    requires id !in others
    ensures MountFx(NewVol(id, kind), script).events != []
    ensures Track(Open(others), [MountFx(NewVol(id, kind), script).events[0]]) == Broken
  {
    TrackSingle(Open(others), StateChanged(id, Checking));
  }
}
