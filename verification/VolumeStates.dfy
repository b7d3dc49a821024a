/**
 What a listener learns about the state of one volume: the events with its id follow a diagram of states, and
 the last state heard is the one the volume is in.
 */
module VolumeStates {
  import opened VolumeModel

  /** What has been heard of an id: nothing since it last went, its creation, a state, or something out of order. */
  datatype Ear = Off | Fresh | On(state: VState) | Wrong

  /** The diagram: which state may be announced after which. */
  predicate Follows(a: VState, b: VState) {
    match a
    case Unmounted => b in {Checking, Formatting, Removed, BadRemoval}
    case Unmountable => b in {Checking, Formatting, Removed}
    case Checking => b in {Mounted, Unmountable}
    case Mounted => b == Ejecting
    case Ejecting => b == Unmounted
    case Formatting => b == Unmounted
    case _ => false
  }

  /** Paths and metadata are announced while checking, and a volume goes only once it is removed. */
  function HearOne(ear: Ear, id: string, e: Event): Ear {
    if e.id != id then ear
    else
      match (ear, e)
      case (Off, Created(_)) => Fresh
      case (Fresh, StateChanged(_, Unmounted)) => On(Unmounted)
      case (On(a), StateChanged(_, b)) => if Follows(a, b) then On(b) else Wrong
      case (On(Removed), Destroyed(_)) => Off
      case (On(BadRemoval), Destroyed(_)) => Off
      case (On(Checking), PathChanged(_, _)) => ear
      case (On(Checking), InternalPathChanged(_, _)) => ear
      case (On(Checking), MetadataChanged(_, _)) => ear
      case _ => Wrong
  }

  function Hear(ear: Ear, id: string, events: seq<Event>): Ear {
    if events == [] then ear
    else HearOne(Hear(ear, id, events[..|events| - 1]), id, events[|events| - 1])
  }

  /** What a listener should know of a volume, and of the volume with some id in a tree. */
  function OwnEar(v: Vol): Ear {
    if v.created && !v.silent then On(v.state) else Off
  }

  function EarOf(v: Vol, id: string): Ear
    decreases v, 1
  {
    if id == v.id then OwnEar(v) else EarOfAll(v.stacked, id)
  }

  function EarOfAll(vs: seq<Vol>, id: string): Ear
    decreases vs, 0
  {
    if vs == [] then Off
    else if id in Ids(vs[0]) then EarOf(vs[0], id)
    else EarOfAll(vs[1..], id)
  }

  /** Between calls no created volume is in a passing state. */
  predicate Settled(v: Vol)
    decreases v, 1
  {
    (v.created ==> v.state in {Unmounted, Mounted, Unmountable}) && SettledAll(v.stacked)
  }

  predicate SettledAll(vs: seq<Vol>)
    decreases vs, 0
  {
    vs == [] || (Settled(vs[0]) && SettledAll(vs[1..]))
  }

  // ----- Listening -----------------------------------------------------------------------------

  lemma {:induction false} HearConcat(ear: Ear, id: string, s: seq<Event>, t: seq<Event>)
    ensures Hear(ear, id, s + t) == Hear(Hear(ear, id, s), id, t)
  {
    if t == [] {
      assert s + t == s;
    } else {
      HearConcat(ear, id, s, t[..|t| - 1]);
      assert (s + t)[..|s + t| - 1] == s + t[..|t| - 1];
    }
  }

  lemma HearNotify(ear: Ear, id: string, v: Vol, e: Event)
    ensures Hear(ear, id, Notify(v, e)) == if v.silent then ear else HearOne(ear, id, e)
  {
    assert [e][..0] == [];
  }

  ghost predicate About(events: seq<Event>, ids: set<string>) {
    forall e :: e in events ==> e.id in ids
  }

  lemma {:induction false} HearOthers(ear: Ear, id: string, events: seq<Event>, ids: set<string>)
    requires About(events, ids) && id !in ids
    ensures Hear(ear, id, events) == ear
  {
    if events != [] {
      assert events[|events| - 1] in events;
      HearOthers(ear, id, events[..|events| - 1], ids);
    }
  }

  lemma {:induction false} UnknownIsOff(v: Vol, id: string)
    ensures id !in Ids(v) ==> EarOf(v, id) == Off
    decreases v, 1
  {
    UnknownAllOff(v.stacked, id);
  }

  lemma {:induction false} UnknownAllOff(vs: seq<Vol>, id: string)
    ensures id !in IdsAll(vs) ==> EarOfAll(vs, id) == Off
    decreases vs, 0
  {
    if vs != [] {
      UnknownIsOff(vs[0], id);
      UnknownAllOff(vs[1..], id);
    }
  }

  // ----- Whom the events are about -------------------------------------------------------------

  lemma {:induction false} DestroyAbout(v: Vol)
    ensures About(DestroyFx(v).events, Ids(v)) && About(UnmountFx(v).events, Ids(v))
    decreases v, 1
  {
    hide Ids, IdsAll;
    UnfoldVol(v);
    DestroyAllAbout(v.stacked);
  }

  lemma {:induction false} DestroyAllAbout(vs: seq<Vol>)
    ensures About(DestroyAllEvents(vs), IdsAll(vs))
    decreases vs, 0
  {
    if vs != [] {
      hide DestroyFx, Ids;
      DestroyAbout(vs[0]);
      DestroyAllAbout(vs[1..]);
    }
  }

  lemma {:induction false} DoMountAbout(v: Vol, steps: seq<MountStep>)
    ensures About(DoMountFx(v, steps).events, {v.id} + StackedIds(steps))
    ensures DoMountFx(v, steps).vol.id == v.id
  {
    if steps != [] {
      hide MountStepFx;
      var init, last := steps[..|steps| - 1], steps[|steps| - 1];
      DoMountAbout(v, init);
      PrefixStacks(steps);
      StepAbout(DoMountFx(v, init).vol, last);
    }
  }

  lemma StepAbout(v: Vol, s: MountStep)
    ensures About(MountStepFx(v, s).events, {v.id} + if s.Stack? then {s.id} else {})
    ensures MountStepFx(v, s).vol.id == v.id
  {
  }

  lemma MountAbout(v: Vol, script: MountScript)
    ensures About(MountFx(v, script).events, {v.id} + StackedIds(script.steps))
  {
    hide DoMountFx, StackedIds;
    DoMountAbout(v.(state := Checking), script.steps);
  }

  lemma FormatAbout(v: Vol, res: int)
    ensures About(FormatFx(v, res).events, Ids(v))
  {
    hide UnmountFx, IdsAll;
    DestroyAbout(v);
    UnfoldVol(v);
  }

  lemma OpAbout(v: Vol, op: Op)
    ensures About(OpFx(v, op).events, Ids(v) + StackedIds(StackSteps(op)))
  {
    hide DestroyFx, UnmountFx, MountFx, FormatFx, IdsAll, StackedIds;
    UnfoldVol(v);
    DestroyAbout(v);
    match op
    case Mount(script) => MountAbout(v, script);
    case Format(res) => FormatAbout(v, res);
    case Recycle(_) => KeepsId(v);
    case _ =>
  }

  lemma KeepsId(v: Vol)
    ensures DestroyFx(v).vol.id == v.id
  {
  }

  // ----- Operations ----------------------------------------------------------------------------

  lemma {:induction false} DroppedAreOff(vs: seq<Vol>, id: string)
    requires CanDropAll(vs)
    ensures EarOfAll(vs, id) == Off
    decreases vs
  {
    if vs != [] {
      DroppedAreOff(vs[0].stacked, id);
      DroppedAreOff(vs[1..], id);
    }
  }

  /** An unmount, up to what is heard of the volume itself and of one above it. */
  lemma {:induction false} UnmountHeard(v: Vol, id: string)
    requires v.state == Mounted ==> (v.created || v.silent) && CanDestroyAll(v.stacked)
    requires Distinct(v) && Settled(v)
    ensures Hear(EarOf(v, id), id, UnmountFx(v).events) == EarOf(UnmountFx(v).vol, id)
    decreases v, 1
  {
    if v.state == Mounted {
      hide Hear, DestroyAllEvents, IdsAll;
      var ear := EarOf(v, id);
      var head := Notify(v, StateChanged(v.id, Ejecting));
      var tail := Notify(v, StateChanged(v.id, Unmounted));
      HearConcat(ear, id, head + DestroyAllEvents(v.stacked), tail);
      HearConcat(ear, id, head, DestroyAllEvents(v.stacked));
      HearNotify(ear, id, v, StateChanged(v.id, Ejecting));
      if id == v.id {
        var ejecting := Hear(ear, id, head);
        DestroyAllAbout(v.stacked);
        HearOthers(ejecting, id, DestroyAllEvents(v.stacked), IdsAll(v.stacked));
        HearNotify(ejecting, id, v, StateChanged(v.id, Unmounted));
      } else {
        DestroyAllHeard(v.stacked, id);
        HearNotify(Off, id, v, StateChanged(v.id, Unmounted));
      }
    }
  }

  lemma {:induction false} DestroyHeard(v: Vol, id: string)
    requires CanDestroy(v) && Distinct(v) && Settled(v)
    ensures Hear(EarOf(v, id), id, DestroyFx(v).events) == EarOf(DestroyFx(v).vol, id)
    decreases v, 2
  {
    hide Hear, DestroyAllEvents;
    var ear, u := EarOf(v, id), UnmountFx(v);
    var last := StateChanged(v.id, if v.state == Mounted then BadRemoval else Removed);
    UnmountHeard(v, id);
    var ear' := EarOf(u.vol, id);
    HearConcat(ear, id, u.events + Notify(v, last), Notify(v, Destroyed(v.id)));
    HearConcat(ear, id, u.events, Notify(v, last));
    HearNotify(ear', id, v, last);
    HearNotify(Hear(ear', id, Notify(v, last)), id, v, Destroyed(v.id));
  }

  lemma {:induction false} DestroyAllHeard(vs: seq<Vol>, id: string)
    requires CanDestroyAll(vs) && DistinctAll(vs) && SettledAll(vs)
    ensures Hear(EarOfAll(vs, id), id, DestroyAllEvents(vs)) == Off
    decreases vs, 0
  {
    hide Hear, DestroyFx, Ids, CanDestroy;
    if vs == [] {
      HearNothing(Off, id);
    } else {
      var ear := EarOfAll(vs, id);
      HearConcat(ear, id, DestroyFx(vs[0]).events, DestroyAllEvents(vs[1..]));
      DestroyAbout(vs[0]);
      DestroyAllAbout(vs[1..]);
      if id in Ids(vs[0]) {
        DestroyHeard(vs[0], id);
        DestroyedIsOff(vs[0], id);
        HearOthers(Off, id, DestroyAllEvents(vs[1..]), IdsAll(vs[1..]));
      } else {
        HearOthers(ear, id, DestroyFx(vs[0]).events, Ids(vs[0]));
        DestroyAllHeard(vs[1..], id);
      }
    }
  }

  lemma HearNothing(ear: Ear, id: string)
    ensures Hear(ear, id, []) == ear
  {
  }

  lemma DestroyedIsOff(v: Vol, id: string)
    requires CanDestroyStacked(v)
    ensures EarOf(DestroyFx(v).vol, id) == Off
  {
    if v.state != Mounted {
      DroppedAreOff(v.stacked, id);
    }
  }

  lemma CreateHeard(v: Vol, id: string)
    requires !v.created
    ensures Hear(EarOf(v, id), id, CreateFx(v).events) == EarOf(CreateFx(v).vol, id)
  {
    hide Hear;
    var ear := EarOf(v, id);
    HearConcat(ear, id, Notify(v, Created(v.id)), Notify(v, StateChanged(v.id, Unmounted)));
    HearNotify(ear, id, v, Created(v.id));
    HearNotify(Hear(ear, id, Notify(v, Created(v.id))), id, v, StateChanged(v.id, Unmounted));
  }

  lemma RecycleHeard(v: Vol, silent: bool, id: string)
    requires CanDestroy(v) && Distinct(v) && Settled(v)
    ensures Hear(EarOf(v, id), id, RecycleFx(v, silent).events) == EarOf(RecycleFx(v, silent).vol, id)
  {
    hide Hear;
    var d := DestroyFx(v);
    var back := SetSilentFx(d.vol, silent).vol;
    DestroyHeard(v, id);
    CreateHeard(back, id);
    HearConcat(EarOf(v, id), id, d.events, CreateFx(back).events);
  }

  lemma {:induction false} EarAppend(vs: seq<Vol>, c: Vol, id: string)
    ensures EarOfAll(vs + [c], id)
         == if id in IdsAll(vs) then EarOfAll(vs, id) else if id in Ids(c) then EarOf(c, id) else Off
  {
    hide Ids, EarOf;
    if vs == [] {
      assert vs + [c] == [c];
      assert [c][1..] == [];
    } else {
      assert (vs + [c])[1..] == vs[1..] + [c];
      EarAppend(vs[1..], c, id);
    }
  }

  /** One step of doMount, on a volume that is being checked. */
  lemma StepHeard(v: Vol, s: MountStep, id: string)
    requires (v.created || v.silent) && v.state == Checking && (s.Stack? ==> s.id !in Ids(v))
    ensures Hear(EarOf(v, id), id, MountStepFx(v, s).events) == EarOf(MountStepFx(v, s).vol, id)
  {
    hide Hear, IdsAll;
    var ear := EarOf(v, id);
    match s
    case Announce(value) => HearNotify(ear, id, v, MetadataChanged(v.id, value));
    case SetPath(path) => HearNotify(ear, id, v, PathChanged(v.id, path));
    case SetInternalPath(path) => HearNotify(ear, id, v, InternalPathChanged(v.id, path));
    case Stack(cid, kind) =>
      var c := NewVol(cid, kind);
      UnfoldVol(v);
      UnknownIsOff(v, id);
      UnknownAllOff(v.stacked, id);
      StackedHeard(ear, c, id);
      EarAppend(v.stacked, CreateFx(c).vol, id);
  }

  /** A new volume is heard of exactly if it is the one listened for. */
  lemma StackedHeard(ear: Ear, c: Vol, id: string)
    requires !c.silent && c.stacked == [] && (id == c.id ==> ear == Off)
    ensures Ids(CreateFx(c).vol) == {c.id}
    ensures Hear(ear, id, CreateFx(c).events) == if id == c.id then On(Unmounted) else ear
    ensures id == c.id ==> EarOf(CreateFx(c).vol, id) == On(Unmounted)
  {
    hide Hear;
    HearConcat(ear, id, Notify(c, Created(c.id)), Notify(c, StateChanged(c.id, Unmounted)));
    HearNotify(ear, id, c, Created(c.id));
    HearNotify(Hear(ear, id, Notify(c, Created(c.id))), id, c, StateChanged(c.id, Unmounted));
  }

  lemma {:induction false} DoMountHeard(v: Vol, steps: seq<MountStep>, id: string)
    requires (v.created || v.silent) && v.state == Checking && Distinct(v)
    requires DistinctStacks(steps) && StackedIds(steps) !! Ids(v)
    ensures var e := DoMountFx(v, steps);
      && Hear(EarOf(v, id), id, e.events) == EarOf(e.vol, id)
      && e.vol.id == v.id && e.vol.created == v.created && e.vol.silent == v.silent && e.vol.state == Checking
      && Ids(e.vol) <= Ids(v) + StackedIds(steps)
  {
    hide Hear, Ids, Distinct, MountStepFx, Track, Audible, EarOf;
    if steps == [] {
      HearNothing(EarOf(v, id), id);
    } else {
      var init, last := steps[..|steps| - 1], steps[|steps| - 1];
      PrefixStacks(steps);
      DoMountHeard(v, init, id);
      var before := DoMountFx(v, init);
      DoMountTracks(v, steps, {});
      HearConcat(EarOf(v, id), id, before.events, MountStepFx(before.vol, last).events);
      StepHeard(before.vol, last, id);
      StepChecks(before.vol, last);
    }
  }

  lemma StepChecks(v: Vol, s: MountStep)
    ensures var v' := MountStepFx(v, s).vol;
      v'.id == v.id && v'.created == v.created && v'.silent == v.silent && v'.state == v.state
  {
  }

  lemma SameButState(v: Vol, state: VState, id: string)
    ensures EarOf(v.(state := state), id) == if id == v.id && v.created && !v.silent then On(state) else EarOf(v, id)
    ensures Ids(v.(state := state)) == Ids(v)
  {
  }

  lemma MountHeard(v: Vol, script: MountScript, id: string)
    requires KeepsBrackets(v, Mount(script)) && Distinct(v) && StackedIds(script.steps) !! Ids(v)
    ensures Hear(EarOf(v, id), id, MountFx(v, script).events) == EarOf(MountFx(v, script).vol, id)
  {
    hide Hear, DoMountFx, Ids, EarOf;
    if Mountable(v) {
      var checking, ear := v.(state := Checking), EarOf(v, id);
      var body := DoMountFx(checking, script.steps);
      var last := if script.res == OK then Mounted else Unmountable;
      var head := Notify(v, StateChanged(v.id, Checking));
      UnfoldVol(v);
      UnfoldVol(checking);
      SameButState(v, Checking, id);
      SameButState(body.vol, last, id);
      OwnEarOf(v, id);
      OwnEarOf(body.vol, id);
      DoMountHeard(checking, script.steps, id);
      HearConcat(ear, id, head + body.events, Notify(v, StateChanged(v.id, last)));
      HearConcat(ear, id, head, body.events);
      HearNotify(ear, id, v, StateChanged(v.id, Checking));
      HearNotify(EarOf(body.vol, id), id, v, StateChanged(v.id, last));
    } else {
      HearNothing(EarOf(v, id), id);
    }
  }

  lemma OwnEarOf(v: Vol, id: string)
    ensures id == v.id ==> EarOf(v, id) == OwnEar(v)
  {
  }

  lemma FormatHeard(v: Vol, res: int, id: string)
    requires ChecksPass(v, Format(res)) && KeepsBrackets(v, Format(res)) && Distinct(v) && Settled(v)
    ensures Hear(EarOf(v, id), id, FormatFx(v, res).events) == EarOf(FormatFx(v, res).vol, id)
  {
    hide Hear, DestroyAllEvents;
    var u, ear := UnmountFx(v), EarOf(v, id);
    UnmountHeard(v, id);
    if Mountable(u.vol) {
      var head, ear' := Notify(v, StateChanged(v.id, Formatting)), EarOf(u.vol, id);
      HearConcat(ear, id, u.events + head, Notify(v, StateChanged(v.id, Unmounted)));
      HearConcat(ear, id, u.events, head);
      HearNotify(ear', id, v, StateChanged(v.id, Formatting));
      HearNotify(Hear(ear', id, head), id, v, StateChanged(v.id, Unmounted));
    }
  }

  lemma OpHeard(v: Vol, op: Op, id: string)
    requires Distinct(v) && Settled(v) && ChecksPass(v, op) && KeepsBrackets(v, op)
    requires StackedIds(StackSteps(op)) !! Ids(v)
    ensures Hear(EarOf(v, id), id, OpFx(v, op).events) == EarOf(OpFx(v, op).vol, id)
  {
    hide DestroyFx, RecycleFx, CreateFx, MountFx, FormatFx, UnmountFx, Ids, Distinct, Hear, Settled;
    match op
    case Create => CreateHeard(v, id);
    case Destroy => DestroyHeard(v, id);
    case Recycle(silent) => RecycleHeard(v, silent, id);
    case Mount(script) => MountHeard(v, script, id);
    case Unmount => UnmountHeard(v, id);
    case Format(res) => FormatHeard(v, res, id);
    case SetSilent(_) => HearNothing(EarOf(v, id), id);
    case SetMountFlags(_) => HearNothing(EarOf(v, id), id);
  }

  // ----- No passing state is left behind -------------------------------------------------------

  lemma {:induction false} SettledAppend(vs: seq<Vol>, v: Vol)
    requires SettledAll(vs) && Settled(v)
    ensures SettledAll(vs + [v])
  {
    if vs == [] {
      assert vs + [v] == [v];
      assert [v][1..] == [];
    } else {
      assert (vs + [v])[1..] == vs[1..] + [v];
      SettledAppend(vs[1..], v);
    }
  }

  lemma {:induction false} SettledUpdate(vs: seq<Vol>, k: nat, v: Vol)
    requires SettledAll(vs) && k < |vs|
    ensures Settled(vs[k]) && (Settled(v) ==> SettledAll(vs[k := v]))
  {
    if k == 0 {
      assert vs[k := v][1..] == vs[1..];
    } else {
      assert vs[k := v][1..] == vs[1..][k - 1 := v];
      SettledUpdate(vs[1..], k - 1, v);
    }
  }

  lemma {:induction false} DoMountSettled(v: Vol, steps: seq<MountStep>)
    requires SettledAll(v.stacked)
    ensures SettledAll(DoMountFx(v, steps).vol.stacked)
  {
    if steps != [] {
      var last := steps[|steps| - 1];
      DoMountSettled(v, steps[..|steps| - 1]);
      if last.Stack? {
        SettledAppend(DoMountFx(v, steps[..|steps| - 1]).vol.stacked, CreateFx(NewVol(last.id, last.kind)).vol);
      }
    }
  }

  lemma DestroySettled(v: Vol)
    requires Settled(v)
    ensures Settled(UnmountFx(v).vol) && Settled(DestroyFx(v).vol)
  {
  }

  lemma CreateSettled(v: Vol)
    requires Settled(v)
    ensures Settled(CreateFx(v).vol)
  {
  }

  lemma MountSettled(v: Vol, script: MountScript)
    requires Settled(v)
    ensures Settled(MountFx(v, script).vol)
  {
    hide DoMountFx;
    if Mountable(v) {
      DoMountSettled(v.(state := Checking), script.steps);
    }
  }

  lemma FormatSettled(v: Vol, res: int)
    requires Settled(v)
    ensures Settled(FormatFx(v, res).vol)
  {
    DestroySettled(v);
  }

  lemma RecycleSettled(v: Vol, silent: bool)
    requires Settled(v)
    ensures Settled(RecycleFx(v, silent).vol)
  {
    hide CreateFx, DestroyFx;
    var gone := DestroyFx(v).vol;
    var back := SetSilentFx(gone, silent).vol;
    DestroySettled(v);
    assert back == gone || back == gone.(silent := silent);
    CreateSettled(back);
  }

  lemma OpSettled(v: Vol, op: Op)
    requires Settled(v)
    ensures Settled(OpFx(v, op).vol)
  {
    hide CreateFx, DestroyFx, UnmountFx, MountFx, FormatFx, RecycleFx;
    match op
    case Create => CreateSettled(v);
    case Destroy => DestroySettled(v);
    case Mount(script) => MountSettled(v, script);
    case Unmount => DestroySettled(v);
    case Format(res) => FormatSettled(v, res);
    case Recycle(silent) => RecycleSettled(v, silent);
    case SetSilent(silent) => assert OpFx(v, op).vol == v || OpFx(v, op).vol == v.(silent := silent);
    case SetMountFlags(flags) => assert OpFx(v, op).vol == v || OpFx(v, op).vol == v.(mountFlags := flags);
  }

  lemma {:induction false} ApplySettled(v: Vol, path: seq<nat>, op: Op)
    requires Settled(v) && ValidPath(v, path)
    ensures Settled(ApplyAt(v, path, op).vol)
  {
    if path == [] {
      OpSettled(v, op);
    } else {
      var c := v.stacked[path[0]];
      SettledUpdate(v.stacked, path[0], ApplyAt(c, path[1..], op).vol);
      ApplySettled(c, path[1..], op);
    }
  }

  // ----- Anywhere in the tree ------------------------------------------------------------------

  lemma {:induction false} ApplyAbout(v: Vol, path: seq<nat>, op: Op)
    requires ValidPath(v, path)
    ensures About(ApplyAt(v, path, op).events, Ids(Node(v, path)) + StackedIds(StackSteps(op)))
  {
    if path == [] {
      OpAbout(v, op);
    } else {
      ApplyAbout(v.stacked[path[0]], path[1..], op);
    }
  }

  lemma {:induction false} NodeIds(v: Vol, path: seq<nat>)
    requires ValidPath(v, path)
    ensures Ids(Node(v, path)) <= Ids(v)
  {
    if path != [] {
      hide Ids;
      var c := v.stacked[path[0]];
      UnfoldVol(v);
      NodeIds(c, path[1..]);
      IdsAt(v.stacked, path[0]);
      assert Ids(Node(v, path)) <= Ids(c) <= IdsAll(v.stacked);
    }
  }

  lemma {:induction false} IdsAt(vs: seq<Vol>, k: nat)
    requires k < |vs|
    ensures Ids(vs[k]) <= IdsAll(vs)
  {
    if k > 0 {
      IdsAt(vs[1..], k - 1);
    }
  }

  /** A changed volume is found where it was, and every other volume is found as before. */
  lemma {:induction false} EarUpdate(vs: seq<Vol>, k: nat, c: Vol, id: string)
    requires k < |vs| && DistinctAll(vs)
    ensures id in Ids(vs[k]) ==> EarOfAll(vs, id) == EarOf(vs[k], id)
    ensures id in Ids(vs[k]) && id in Ids(c) ==> EarOfAll(vs[k := c], id) == EarOf(c, id)
    ensures id in Ids(vs[k]) && id !in Ids(c) ==> EarOfAll(vs[k := c], id) == Off
    ensures id !in IdsAll(vs) ==> EarOfAll(vs[k := c], id) == if id in Ids(c) then EarOf(c, id) else Off
    ensures id !in Ids(vs[k]) && id !in Ids(c) ==> EarOfAll(vs[k := c], id) == EarOfAll(vs, id)
  {
    hide Ids, EarOf, Distinct;
    if k == 0 {
      assert vs[k := c][1..] == vs[1..];
      UnknownAllOff(vs[1..], id);
    } else {
      assert vs[k := c][1..] == vs[1..][k - 1 := c];
      IdsAt(vs[1..], k - 1);
      EarUpdate(vs[1..], k - 1, c, id);
    }
  }

  lemma {:induction false} ApplyHeard(v: Vol, path: seq<nat>, op: Op, id: string)
    requires Distinct(v) && Settled(v) && ValidPath(v, path)
    requires ChecksPass(Node(v, path), op) && KeepsBrackets(Node(v, path), op)
    requires StackedIds(StackSteps(op)) !! Ids(v)
    ensures Hear(EarOf(v, id), id, ApplyAt(v, path, op).events) == EarOf(ApplyAt(v, path, op).vol, id)
  {
    hide OpFx, Hear, KeepsBrackets, ChecksPass, StackedIds, StackSteps, EarOfAll, IdsAll, Track, Audible;
    if path == [] {
      OpHeard(v, op, id);
    } else {
      var k, news := path[0], StackedIds(StackSteps(op));
      var c := v.stacked[k];
      var e := ApplyAt(c, path[1..], op);
      IdsAt(v.stacked, k);
      ChildDistinct(v, k);
      SettledUpdate(v.stacked, k, e.vol);
      ApplyBracketsIff(c, path[1..], op, {});
      EarUpdate(v.stacked, k, e.vol, id);
      ApplyAbout(c, path[1..], op);
      NodeIds(c, path[1..]);
      UnknownAllOff(v.stacked, id);
      UnknownIsOff(c, id);
      UnknownIsOff(e.vol, id);
      if id in Ids(c) + news {
        ApplyHeard(c, path[1..], op, id);
      } else {
        HearOthers(EarOf(v, id), id, e.events, Ids(c) + news);
      }
    }
  }

  lemma ChildDistinct(v: Vol, k: nat)
    requires Distinct(v) && k < |v.stacked|
    ensures DistinctAll(v.stacked) && Distinct(v.stacked[k]) && v.id !in IdsAll(v.stacked)
  {
    var _, _ := SplitAt(v.stacked, k, v.stacked[k]);
  }

  /** The node that a path leads to is the one with its id. */
  lemma {:induction false} EarOfNode(v: Vol, path: seq<nat>)
    requires Distinct(v) && ValidPath(v, path)
    ensures EarOf(v, Node(v, path).id) == OwnEar(Node(v, path))
  {
    if path != [] {
      var k, c := path[0], v.stacked[path[0]];
      ChildDistinct(v, k);
      EarOfNode(c, path[1..]);
      NodeIds(c, path[1..]);
      IdsAt(v.stacked, k);
      EarUpdate(v.stacked, k, c, Node(v, path).id);
    }
  }

  // ----- Over runs -----------------------------------------------------------------------------

  lemma {:induction false} SilentIsOff(v: Vol, id: string)
    requires Audible(v) == {}
    ensures EarOf(v, id) == Off
    decreases v, 1
  {
    SilentAllOff(v.stacked, id);
  }

  lemma {:induction false} SilentAllOff(vs: seq<Vol>, id: string)
    requires AudibleAll(vs) == {}
    ensures EarOfAll(vs, id) == Off
    decreases vs, 0
  {
    if vs != [] {
      SilentIsOff(vs[0], id);
      SilentAllOff(vs[1..], id);
    }
  }

  /**
   Over every properly bracketed run, whatever is heard of an id keeps to the diagram, and what the last event
   leaves a listener with is the state of the volume with that id.
   */
  lemma {:induction false} RunsAreHeard(vols: seq<Vol>, calls: seq<Call>, n: nat, id: string)
    requires IsRun(vols, calls) && n <= |calls|
    requires Audible(vols[0]) == {} && Distinct(vols[0]) && Settled(vols[0])
    requires forall i: nat :: i < n ==> CallKeepsBrackets(vols, calls, i)
    ensures Hear(Off, id, EventsOf(vols, calls, n)) == EarOf(vols[n], id)
    ensures Settled(vols[n]) && Distinct(vols[n])
  {
    hide Hear, EarOf, Audible, ApplyAt, Distinct, Settled, KeepsBrackets, ChecksPass, Track;
    RunsAreBracketed(vols, calls, n);
    if n == 0 {
      HearNothing(Off, id);
      SilentIsOff(vols[0], id);
    } else {
      RunsAreHeard(vols, calls, n - 1, id);
      RunsAreBracketed(vols, calls, n - 1);
      var v, call := vols[n - 1], calls[n - 1];
      assert IsCall(v, call, vols[n]);
      assert CallKeepsBrackets(vols, calls, n - 1);
      ApplySettled(v, call.path, call.op);
      ApplyHeard(v, call.path, call.op, id);
      HearConcat(Off, id, EventsOf(vols, calls, n - 1), ApplyAt(v, call.path, call.op).events);
    }
  }

  /** So wherever a volume sits, if it is created and audible the last state heard of it is its own; else none. */
  lemma LastHeardIsState(vols: seq<Vol>, calls: seq<Call>, n: nat, path: seq<nat>)
    requires IsRun(vols, calls) && n <= |calls| && ValidPath(vols[n], path)
    requires Audible(vols[0]) == {} && Distinct(vols[0]) && Settled(vols[0])
    requires forall i: nat :: i < n ==> CallKeepsBrackets(vols, calls, i)
    ensures var v := Node(vols[n], path);
      Hear(Off, v.id, EventsOf(vols, calls, n)) == if v.created && !v.silent then On(v.state) else Off
  {
    hide Hear, EarOf, Audible, ApplyAt, Distinct, Settled, KeepsBrackets, ChecksPass;
    RunsAreHeard(vols, calls, n, Node(vols[n], path).id);
    EarOfNode(vols[n], path);
  }
}
