/**
 VolumeBase as an object: fields updated in place, a list of volumes stacked on top, and a broadcaster shared
 by all volumes.  Each method is proved to do to the object tree what VolumeModel says of its value.
 */
module Volume {
  import opened VolumeModel

  class Broadcaster {
    var log: seq<Event>

    constructor ()
      ensures log == []
    {
      log := [];
    }
  }

  class VolumeBase {
    const id: string
    const kind: Kind
    const broadcaster: Broadcaster
    var created: bool
    var state: VState
    var silent: bool
    var mountFlags: int
    var path: string
    var internalPath: string
    var volumes: seq<VolumeBase>
    ghost var Repr: set<VolumeBase>

    ghost predicate Valid()
      reads this, Repr
      decreases Repr + {this}
    {
      && this in Repr
      && (forall i :: 0 <= i < |volumes| ==>
            && volumes[i] in Repr && volumes[i].Repr <= Repr && this !in volumes[i].Repr
            && volumes[i].broadcaster == broadcaster
            && volumes[i].Valid())
      && (forall i, j :: 0 <= i < j < |volumes| ==> volumes[i].Repr !! volumes[j].Repr)
    }

    /** The value of the volume and of the tree above it. */
    ghost function Value(): Vol
      reads this, Repr
      requires Valid()
      decreases Repr
    {
      Vol(id, kind, created, state, silent, mountFlags, path, internalPath,
          seq(|volumes|, i requires 0 <= i < |volumes| && Valid() reads this, Repr => volumes[i].Value()))
    }

    /** The last n events broadcast, as far as there are so many. */
    ghost function Tail(n: nat): seq<Event>
      reads this, broadcaster
    {
      var log := broadcaster.log;
      if n <= |log| then log[|log| - n..] else log
    }

    constructor (id: string, kind: Kind, broadcaster: Broadcaster)
      ensures Valid() && fresh(Repr) && this.broadcaster == broadcaster
      ensures Value() == NewVol(id, kind)
    {
      this.id, this.kind, this.broadcaster := id, kind, broadcaster;
      created, state, silent, mountFlags, path, internalPath := false, Unmounted, false, 0, "", "";
      volumes := [];
      Repr := {this};
    }

    lemma OwnFields()
      requires Valid()
      ensures this in Repr
      ensures var v := Value();
        v == Vol(id, kind, created, state, silent, mountFlags, path, internalPath, v.stacked)
    {
    }

    lemma NoneStacked()
      requires volumes == [] && Repr == {this}
      ensures Valid() && Value() == Vol(id, kind, created, state, silent, mountFlags, path, internalPath, [])
    {
    }

    method NotifyEvent(e: Event)
      modifies broadcaster
      ensures broadcaster.log == old(broadcaster.log) + if silent then [] else [e]
    {
      if !silent {
        broadcaster.log := broadcaster.log + [e];
      }
    }

    method SetState(s: VState)
      requires Valid()
      modifies this`state, broadcaster
      ensures Valid() && state == s
      ensures Value() == old(Value()).(state := s)
      ensures broadcaster.log == old(broadcaster.log) + Notify(old(Value()), StateChanged(id, s))
    {
      state := s;
      NotifyEvent(StateChanged(id, s));
    }

    method SetSilent(silent: bool) returns (res: int)
      requires Valid()
      modifies this`silent
      ensures Valid()
      ensures (var e := SetSilentFx(old(Value()), silent); Value() == e.vol && res == e.res)
      ensures res == (if created then -16 else 0) && this.silent == (if created then old(this.silent) else silent)
    {
      if created {
        return EBUSY;
      }
      this.silent := silent;
      return OK;
    }

    method SetMountFlags(flags: int) returns (res: int)
      requires Valid()
      modifies this`mountFlags
      ensures Valid()
      ensures (var e := SetMountFlagsFx(old(Value()), flags); Value() == e.vol && res == e.res)
      ensures state in {Unmounted, Unmountable} ==> res == 0 && mountFlags == flags
      ensures state !in {Unmounted, Unmountable} ==> res == -16 && mountFlags == old(mountFlags)
    {
      if state != Unmounted && state != Unmountable {
        return EBUSY;
      }
      mountFlags := flags;
      return OK;
    }

    method Create()
      requires Valid() && !created
      modifies this`created, this`state, broadcaster
      ensures Valid() && Repr == old(Repr)
      ensures Value() == CreateFx(old(Value())).vol
      ensures broadcaster.log == old(broadcaster.log) + CreateFx(old(Value())).events
      ensures created && state == Unmounted
      ensures broadcaster.log == old(broadcaster.log)
           + if silent then [] else [Created(id), StateChanged(id, Unmounted)]
    {
      created := true;
      NotifyEvent(Created(id));
      SetState(Unmounted);
    }

    /** The CHECKs on the way down are the precondition. */
    method Destroy() returns (res: int)
      requires Valid() && CanDestroy(Value())
      modifies Repr, broadcaster
      ensures Valid() && Repr <= old(Repr)
      ensures Value() == DestroyFx(old(Value())).vol
      ensures broadcaster.log == old(broadcaster.log) + DestroyFx(old(Value())).events
      ensures !created && state == (if old(state) == Mounted then BadRemoval else Removed)
      ensures !silent ==> Tail(2) == [StateChanged(id, state), Destroyed(id)]
      decreases Repr, 2
    {
      hide CanDestroyAll, DestroyAllEvents, Valid, Value;
      OwnFields();
      if state == Mounted {
        var _ := Unmount();
        OwnFields();
        SetState(BadRemoval);
      } else {
        SetState(Removed);
      }
      OwnFields();
      Leave();
      return OK;
    }

    /** The end of a destroy. */
    method Leave()
      requires Valid()
      modifies this`created, broadcaster
      ensures Valid() && Value() == old(Value()).(created := false) && !created
      ensures broadcaster.log == old(broadcaster.log) + Notify(old(Value()), Destroyed(id))
    {
      NotifyEvent(Destroyed(id));
      created := false;
    }

    method Unmount() returns (res: int)
      requires Valid() && (state == Mounted ==> CanDestroyAll(Value().stacked))
      modifies Repr, broadcaster
      ensures Valid() && Repr <= old(Repr)
      ensures (var e := UnmountFx(old(Value())); Value() == e.vol && res == e.res)
      ensures res == (if old(state) == Mounted then 0 else -16)
      ensures state == (if old(state) == Mounted then Unmounted else old(state))
      ensures broadcaster.log == old(broadcaster.log) + UnmountFx(old(Value())).events
      decreases Repr, 1
    {
      hide CanDestroyAll, DestroyAllEvents, MayGo, Valid, Value;
      OwnFields();
      if state != Mounted {
        return EBUSY;
      }
      ghost var v, start := Value(), broadcaster.log;
      SetState(Ejecting);
      OwnFields();
      DestroyStacked();
      volumes := [];
      Repr := {this};
      NoneStacked();
      SetState(Unmounted);
      assert broadcaster.log == start + (Notify(v, StateChanged(id, Ejecting)) + DestroyAllEvents(v.stacked)
                                         + Notify(v, StateChanged(id, Unmounted)));
      return OK;
    }

    /** What the destructor checks of the volume and of what goes with it. */
    ghost predicate MayGo()
      reads this, Repr
    {
      Valid() && CanDrop(Value())
    }

    lemma GoesIf()
      ensures MayGo() <==> Valid() && CanDrop(Value())
    {
    }

    ghost function StackedRepr(): set<VolumeBase>
      reads this, Repr
      requires Valid()
    {
      set i, o | 0 <= i < |volumes| && o in volumes[i].Repr :: o
    }

    lemma StackedParts()
      requires Valid()
      ensures this in Repr && |Value().stacked| == |volumes|
      ensures forall i :: 0 <= i < |volumes| ==>
          && volumes[i].Valid() && volumes[i].Value() == Value().stacked[i]
          && volumes[i] in volumes[i].Repr && volumes[i].Repr <= Repr && this !in volumes[i].Repr
          && volumes[i].broadcaster == broadcaster
      ensures forall i, j :: 0 <= i < j < |volumes| ==> volumes[i].Repr !! volumes[j].Repr
    {
    }

    /** The loop of unmount: destroy each volume stacked above, so that the list can be cleared. */
    method DestroyStacked()
      requires Valid() && CanDestroyAll(Value().stacked)
      modifies StackedRepr(), broadcaster
      ensures broadcaster.log == old(broadcaster.log) + DestroyAllEvents(old(Value()).stacked)
      ensures forall i :: 0 <= i < |volumes| ==> volumes[i].MayGo()
      decreases Repr, 0
    {
      hide CanDestroyAll, CanDestroyStacked, CanDestroy, CanDrop, DestroyAllEvents, DestroyFx, MayGo;
      StackedParts();
      hide Valid, Value;
      ghost var stacked, start := Value().stacked, broadcaster.log;
      var i := 0;
      assert stacked[0..] == stacked;
      while i < |volumes|
        invariant i <= |volumes|
        invariant forall j :: 0 <= j < i ==>
            volumes[j].Repr <= old(volumes[j].Repr) && volumes[j].MayGo()
        invariant forall j :: i <= j < |volumes| ==>
            volumes[j].Valid() && volumes[j].Repr == old(volumes[j].Repr) && volumes[j].Value() == stacked[j]
        invariant CanDestroyAll(stacked[i..])
        invariant broadcaster.log + DestroyAllEvents(stacked[i..]) == start + DestroyAllEvents(stacked)
      {
        NextStacked(stacked, i);
        ghost var before := broadcaster.log;
        var _ := volumes[i].Destroy();
        volumes[i].GoesIf();
        assert before + (DestroyFx(stacked[i]).events + DestroyAllEvents(stacked[i + 1..]))
            == broadcaster.log + DestroyAllEvents(stacked[i + 1..]);
        i := i + 1;
      }
      assert stacked[i..] == [];
      NoStacked();
    }

    /** mount(): the steps of doMount run while checking, and may stack new volumes on top. */
    method Mount(script: MountScript) returns (res: int)
      requires Valid()
      modifies this, broadcaster
      ensures Valid() && fresh(Repr - old(Repr))
      ensures (var e := MountFx(old(Value()), script); Value() == e.vol && res == e.res)
      ensures old(state) in {Unmounted, Unmountable} ==>
        res == script.res && state == if res == 0 then Mounted else Unmountable
      ensures old(state) !in {Unmounted, Unmountable} ==> res == -16 && state == old(state)
      ensures broadcaster.log == old(broadcaster.log) + MountFx(old(Value()), script).events
    {
      hide DoMountFx, Valid, Value;
      OwnFields();
      if state != Unmounted && state != Unmountable {
        return EBUSY;
      }
      ghost var v, start := Value(), broadcaster.log;
      SetState(Checking);
      assert Value() == v.(state := Checking);
      KeepsAudience(v.(state := Checking), script.steps);
      DoMount(script.steps);
      ghost var body := DoMountFx(v.(state := Checking), script.steps);
      if script.res == OK {
        SetState(Mounted);
      } else {
        SetState(Unmountable);
      }
      assert broadcaster.log == start + MountFx(v, script).events;
      return script.res;
    }

    /** The steps of a doMount, in order. */
    method DoMount(steps: seq<MountStep>)
      requires Valid()
      modifies this`path, this`internalPath, this`volumes, this`Repr, broadcaster
      ensures Valid() && fresh(Repr - old(Repr))
      ensures Value() == DoMountFx(old(Value()), steps).vol
      ensures broadcaster.log == old(broadcaster.log) + DoMountFx(old(Value()), steps).events
    {
      hide DoMountFx, MountStepFx;
      ghost var v, start := Value(), broadcaster.log;
      NoSteps(v);
      assert steps[..0] == [];
      var k := 0;
      while k < |steps|
        invariant k <= |steps| && Valid() && fresh(Repr - old(Repr))
        invariant Value() == DoMountFx(v, steps[..k]).vol
        invariant broadcaster.log == start + DoMountFx(v, steps[..k]).events
      {
        NextStep(v, steps, k);
        DoMountStep(steps[k]);
        k := k + 1;
      }
      assert steps[..k] == steps;
    }

    method DoMountStep(s: MountStep)
      requires Valid()
      modifies this`path, this`internalPath, this`volumes, this`Repr, broadcaster
      ensures Valid() && fresh(Repr - old(Repr))
      ensures Value() == MountStepFx(old(Value()), s).vol
      ensures broadcaster.log == old(broadcaster.log) + MountStepFx(old(Value()), s).events
      ensures s.SetPath? ==> path == s.path && (!silent ==> Tail(1) == [PathChanged(id, s.path)])
      ensures s.SetInternalPath? ==>
        internalPath == s.path && (!silent ==> Tail(1) == [InternalPathChanged(id, s.path)])
      ensures s.Announce? && !silent ==> Tail(1) == [MetadataChanged(id, s.value)]
    {
      match s
      case Announce(value) =>
        NotifyEvent(MetadataChanged(id, value));
      case SetPath(p) =>
        path := p;
        NotifyEvent(PathChanged(id, path));
      case SetInternalPath(p) =>
        internalPath := p;
        NotifyEvent(InternalPathChanged(id, internalPath));
      case Stack(vid, vkind) =>
        StackNew(vid, vkind);
    }

    /** Stack a new volume on top and create it, as a private volume does once it is mounted. */
    method StackNew(vid: string, vkind: Kind)
      requires Valid()
      modifies this`volumes, this`Repr, broadcaster
      ensures Valid() && fresh(Repr - old(Repr))
      ensures Value() == MountStepFx(old(Value()), Stack(vid, vkind)).vol
      ensures |volumes| == |old(volumes)| + 1 && volumes[..|old(volumes)|] == old(volumes)
      ensures var vol := volumes[|old(volumes)|]; fresh(vol) && vol.id == vid && vol.kind == vkind && vol.created
      ensures broadcaster.log == old(broadcaster.log) + MountStepFx(old(Value()), Stack(vid, vkind)).events
    {
      hide Notify, CanDestroyAll;
      ghost var v := Value();
      var vol := new VolumeBase(vid, vkind, broadcaster);
      vol.Create();
      volumes := volumes + [vol];
      Repr := Repr + vol.Repr;
      assert Value().stacked == v.stacked + [vol.Value()];
    }

    method Format(fsRes: int) returns (res: int)
      requires Valid() && (state == Mounted ==> CanDestroyAll(Value().stacked))
      modifies Repr, broadcaster
      ensures Valid() && Repr <= old(Repr)
      ensures (var e := FormatFx(old(Value()), fsRes); Value() == e.vol && res == e.res)
      ensures old(state) in {Unmounted, Unmountable, Mounted} ==> res == fsRes && state == Unmounted
      ensures old(state) in {Unmounted, Unmountable, Mounted} && !silent ==>
        Tail(2) == [StateChanged(id, Formatting), StateChanged(id, Unmounted)]
      ensures old(state) !in {Unmounted, Unmountable, Mounted} ==> res == -16 && state == old(state)
      ensures broadcaster.log == old(broadcaster.log) + FormatFx(old(Value()), fsRes).events
    {
      hide Valid, Value, CanDestroyAll, DestroyAllEvents;
      OwnFields();
      if state == Mounted {
        var _ := Unmount();
        OwnFields();
      }
      if state != Unmounted && state != Unmountable {
        return EBUSY;
      }
      SetState(Formatting);
      SetState(Unmounted);
      return fsRes;
    }
  }

  lemma {:induction false} KeepsAudience(v: Vol, steps: seq<MountStep>)
    ensures var v' := DoMountFx(v, steps).vol;
      v'.id == v.id && v'.silent == v.silent
  {
    if steps != [] {
      KeepsAudience(v, steps[..|steps| - 1]);
    }
  }

  lemma NoSteps(v: Vol)
    ensures DoMountFx(v, []) == Effect(v, [], OK)
  {
  }

  lemma NextStep(v: Vol, steps: seq<MountStep>, k: nat)
    requires k < |steps|
    ensures var before := DoMountFx(v, steps[..k]);
      var step := MountStepFx(before.vol, steps[k]);
      DoMountFx(v, steps[..k + 1]) == Effect(step.vol, before.events + step.events, OK)
  {
    assert steps[..k + 1][..k] == steps[..k];
  }

  lemma NoStacked()
    ensures DestroyAllEvents([]) == []
  {
  }

  lemma NextStacked(vs: seq<Vol>, i: nat)
    requires i < |vs|
    ensures CanDestroyAll(vs[i..]) <==> CanDestroyStacked(vs[i]) && CanDestroyAll(vs[i + 1..])
    ensures CanDestroyStacked(vs[i]) ==> CanDestroy(vs[i]) && CanDrop(DestroyFx(vs[i]).vol)
    ensures DestroyAllEvents(vs[i..]) == DestroyFx(vs[i]).events + DestroyAllEvents(vs[i + 1..])
  {
    assert vs[i..][1..] == vs[i + 1..];
  }
}
