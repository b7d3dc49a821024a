/** The move of data between two emulated volumes, a client that takes both out of sight and back. */
module MoveTask {
  import opened VolumeModel
  import opened Volume

  datatype MoveStatus = MoveSucceeded | MoveFailedInternalError

  /** What is heard of a volume that a recycle destroys and creates again audibly. */
  function Birth(id: string): seq<Event> {
    [Created(id), StateChanged(id, Unmounted)]
  }

  /** What is heard when an audible unmounted volume is brought online once more. */
  function Rebirth(id: string): seq<Event> {
    [StateChanged(id, Removed), Destroyed(id)] + Birth(id)
  }

  /** Ready for use and visible. */
  ghost predicate Online(v: VolumeBase)
    reads v
  {
    v.created && !v.silent && v.state == Unmounted && v.volumes == []
  }

  /** Created, but out of sight. */
  ghost predicate Offline(v: VolumeBase)
    reads v
  {
    v.created && v.silent && v.state in {Mounted, Unmountable} && v.volumes == []
  }

  method BringOffline(vol: VolumeBase, script: MountScript)
    requires vol.Valid() && vol.created && Stable(vol.Value()) && StacksNothing(script.steps)
    modifies vol.Repr, vol.broadcaster
    ensures vol.Valid() && Offline(vol) && Stable(vol.Value()) && fresh(vol.Repr - old(vol.Repr))
    ensures vol.broadcaster.log == old(vol.broadcaster.log) + old(DestroyFx(vol.Value()).events)
    ensures vol.mountFlags == 0
  {
    hide DestroyFx, MountFx, CanDestroy;
    ghost var v := vol.Value();
    StableCanDestroy(v);
    DestroyedVol(v);
    var _ := vol.Destroy();
    var _ := vol.SetSilent(true);
    vol.Create();
    var _ := vol.SetMountFlags(0);
    SilentMount(vol.Value(), script);
    var _ := vol.Mount(script);
  }

  method BringOnline(vol: VolumeBase)
    requires vol.Valid() && vol.created && Stable(vol.Value())
    modifies vol.Repr, vol.broadcaster
    ensures vol.Valid() && Online(vol) && Stable(vol.Value()) && vol.Repr <= old(vol.Repr)
    ensures vol.broadcaster.log
         == old(vol.broadcaster.log) + (old(DestroyFx(vol.Value()).events) + Birth(vol.id))
  {
    hide DestroyFx, CanDestroy;
    ghost var v := vol.Value();
    StableCanDestroy(v);
    DestroyedVol(v);
    var _ := vol.Destroy();
    var _ := vol.SetSilent(false);
    vol.Create();
  }

  lemma DestroyedVol(v: Vol)
    requires Stable(v) && v.created
    ensures var e := DestroyFx(v).vol;
      !e.created && e.stacked == [] && e.id == v.id && e.silent == v.silent
  {
    DestroyLeavesBare(v);
  }

  /** A silent volume without others above it is destroyed in silence. */
  lemma SilentDestroy(v: Vol)
    requires v.silent && v.stacked == []
    ensures DestroyFx(v).events == []
  {
    assert DestroyAllEvents(v.stacked) == [];
  }

  lemma AudibleDestroy(v: Vol)
    requires !v.silent && v.state == Unmounted
    ensures DestroyFx(v).events == [StateChanged(v.id, Removed), Destroyed(v.id)]
  {
  }

  lemma SilentMount(v: Vol, script: MountScript)
    requires v.silent && v.created && v.state == Unmounted && v.stacked == [] && StacksNothing(script.steps)
    ensures var e := MountFx(v, script);
      && e.events == []
      && e.vol.state in {Mounted, Unmountable} && e.vol.created && e.vol.silent
      && e.vol.stacked == [] && e.vol.mountFlags == v.mountFlags && Stable(e.vol)
  {
    SilentDoMount(v.(state := Checking), script.steps);
  }

  lemma {:induction false} SilentDoMount(v: Vol, steps: seq<MountStep>)
    requires v.silent && StacksNothing(steps)
    ensures var e := DoMountFx(v, steps);
      && e.events == []
      && e.vol.(path := v.path, internalPath := v.internalPath) == v
  {
    if steps != [] {
      assert steps[|steps| - 1] in steps;
      SilentDoMount(v, steps[..|steps| - 1]);
    }
  }

  /** What is heard when both volumes go out of sight; they may be the same one. */
  function Goodbyes(from: Vol, to: Vol, same: bool): seq<Event> {
    DestroyFx(from).events + if same then [] else DestroyFx(to).events
  }

  /** And when both come back. */
  function Births(fromId: string, toId: string, same: bool): seq<Event> {
    Birth(fromId) + if same then Rebirth(fromId) else Birth(toId)
  }

  /** What is heard when both are brought online once more. */
  function Rebirths(fromId: string, toId: string): seq<Event> {
    Rebirth(fromId) + Rebirth(toId)
  }

  /** All that is heard of the two volumes during a move. */
  function Heard(from: Vol, to: Vol, same: bool, cleanUpFails: bool): seq<Event> {
    if from.kind != Emulated || to.kind != Emulated
    then
      (DestroyFx(from).events + Birth(from.id))
      + (if same then Rebirth(from.id) else DestroyFx(to).events + Birth(to.id))
    else
      Goodbyes(from, to, same) + Births(from.id, to.id, same)
      + (if cleanUpFails then Rebirths(from.id, to.id) else [])
  }

  lemma HeardAtOnce(from: Vol, to: Vol, same: bool, cleanUpFails: bool)
    requires from.kind != Emulated || to.kind != Emulated
    ensures Heard(from, to, same, cleanUpFails)
         == (DestroyFx(from).events + Birth(from.id))
            + (if same then Rebirth(from.id) else DestroyFx(to).events + Birth(to.id))
  {
  }

  /** The log of a move in its parts. */
  lemma HeardInParts(log: seq<Event>, from: Vol, to: Vol, same: bool, cleanUpFails: bool)
    requires from.kind == Emulated && to.kind == Emulated
    ensures var moved := log + Goodbyes(from, to, same) + Births(from.id, to.id, same);
      log + Heard(from, to, same, cleanUpFails) == if cleanUpFails then moved + Rebirths(from.id, to.id) else moved
  {
  }

  /** Ready for a client: created, in a stable tree, and either one volume or two that share nothing. */
  ghost predicate Pair(from: VolumeBase, to: VolumeBase)
    reads from, from.Repr, to, to.Repr
  {
    && from.Valid() && to.Valid() && (from == to || from.Repr !! to.Repr) && from.broadcaster == to.broadcaster
    && from.created && to.created && Stable(from.Value()) && Stable(to.Value())
  }

  lemma OnlineAgain(v: VolumeBase)
    requires v.Valid() && Online(v)
    ensures DestroyFx(v.Value()).events + Birth(v.id) == Rebirth(v.id)
  {
    AudibleDestroy(v.Value());
  }

  lemma PairValues(from: VolumeBase, to: VolumeBase)
    requires Pair(from, to)
    ensures from.Valid() && to.Valid() && from.broadcaster == to.broadcaster
    ensures from.Value().kind == from.kind && to.Value().kind == to.kind
    ensures from.Value().id == from.id && to.Value().id == to.id
  {
  }

  /** Two offline volumes are heard only when they come back. */
  lemma OfflinePair(from: VolumeBase, to: VolumeBase)
    requires Pair(from, to) && Offline(from) && Offline(to)
    ensures from.Valid() && to.Valid()
    ensures (DestroyFx(from.Value()).events + Birth(from.id))
            + (if from == to then Rebirth(from.id) else DestroyFx(to.Value()).events + Birth(to.id))
         == Births(from.id, to.id, from == to)
  {
    SilentDestroy(from.Value());
    SilentDestroy(to.Value());
  }

  /** Two online volumes go and come back. */
  lemma OnlinePair(from: VolumeBase, to: VolumeBase)
    requires Pair(from, to) && Online(from) && Online(to)
    ensures from.Valid() && to.Valid()
    ensures (DestroyFx(from.Value()).events + Birth(from.id))
            + (if from == to then Rebirth(from.id) else DestroyFx(to.Value()).events + Birth(to.id))
         == Rebirths(from.id, to.id)
  {
    OnlineAgain(from);
    OnlineAgain(to);
  }

  lemma OwnRepr(v: VolumeBase)
    requires v.Valid()
    ensures v in v.Repr
  {
  }

  /** The two calls that every way out of run() goes through. */
  method BringBothOnline(from: VolumeBase, to: VolumeBase)
    requires Pair(from, to)
    modifies from.Repr, to.Repr, from.broadcaster
    ensures Pair(from, to) && Online(from) && Online(to)
    ensures from.Repr <= old(from.Repr) && to.Repr <= old(to.Repr)
    ensures from.broadcaster.log == old(from.broadcaster.log)
         + ((old(DestroyFx(from.Value()).events) + Birth(from.id))
            + (if from == to then Rebirth(from.id) else old(DestroyFx(to.Value()).events) + Birth(to.id)))
  {
    hide DestroyFx, Stable, Birth, Rebirth, VolumeBase.Valid, VolumeBase.Value;
    OwnRepr(from);
    OwnRepr(to);
    BringOnline(from);
    assert from != to ==> to.Valid() && to.Value() == old(to.Value()) && to.created && to.Repr == old(to.Repr);
    if from == to {
      OnlineAgain(from);
    }
    BringOnline(to);
  }

  method BringBothOffline(from: VolumeBase, to: VolumeBase, fromScript: MountScript, toScript: MountScript)
    requires Pair(from, to)
    requires StacksNothing(fromScript.steps) && StacksNothing(toScript.steps)
    modifies from.Repr, to.Repr, from.broadcaster
    ensures Pair(from, to) && Offline(from) && Offline(to)
    ensures fresh(from.Repr - old(from.Repr)) && fresh(to.Repr - old(to.Repr))
    ensures from.broadcaster.log == old(from.broadcaster.log)
         + Goodbyes(old(from.Value()), old(to.Value()), from == to)
  {
    hide DestroyFx, Stable;
    BringOffline(from, fromScript);
    if from == to {
      SilentDestroy(from.Value());
    }
    BringOffline(to, toScript);
  }

  /**
   run(): whatever becomes of the remove and copy commands, both volumes end up online, and all that is heard
   of them is that they go, come back, and on a failed clean-up are recycled once more.
   */
  method Run(from: VolumeBase, to: VolumeBase, fromScript: MountScript, toScript: MountScript,
             rmStaleOk: bool, cpOk: bool, rmOldOk: bool)
      returns (status: MoveStatus)
    requires Pair(from, to)
    requires StacksNothing(fromScript.steps) && StacksNothing(toScript.steps)
    modifies from.Repr, to.Repr, from.broadcaster
    ensures Pair(from, to) && Online(from) && Online(to)
    ensures status == MoveSucceeded
       <==> from.kind == Emulated && to.kind == Emulated && rmStaleOk && cpOk && rmOldOk
    ensures from.broadcaster.log == old(from.broadcaster.log)
         + Heard(old(from.Value()), old(to.Value()), from == to, rmStaleOk && cpOk && !rmOldOk)
  {
    hide DestroyFx, Stable, Birth, Rebirth, Births, Rebirths, Goodbyes, Heard, Online, Offline, Pair,
         VolumeBase.Valid, VolumeBase.Value;
    PairValues(from, to);
    ghost var start := from.broadcaster.log;
    if from.kind != Emulated || to.kind != Emulated {
      HeardAtOnce(from.Value(), to.Value(), from == to, rmStaleOk && cpOk && !rmOldOk);
      BringBothOnline(from, to);
      return MoveFailedInternalError;
    }
    HeardInParts(start, from.Value(), to.Value(), from == to, rmStaleOk && cpOk && !rmOldOk);
    BringBothOffline(from, to, fromScript, toScript);
    OfflinePair(from, to);
    if !rmStaleOk || !cpOk {
      BringBothOnline(from, to);
      return MoveFailedInternalError;
    }
    BringBothOnline(from, to);
    if !rmOldOk {
      OnlinePair(from, to);
      BringBothOnline(from, to);
      return MoveFailedInternalError;
    }
    return MoveSucceeded;
  }
}
