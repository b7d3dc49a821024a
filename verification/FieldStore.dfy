/**
 The field store of cryptfs.c in its own form: a fixed array of slots filled from the front, filtered in
 place, saved to two device copies.  Every method is proved against FieldTable and PersistStorage.
 */
module FieldStore {
  import opened Common
  import opened FieldTable
  import opened PersistStorage

  const ZERO_ENTRY := Entry("", "")

  datatype DelResult = DelOk | DelNoField
  datatype GetResult = GetOk | GetNoField | GetBufTooSmall

  /** The in-memory crypt_persist_data: the valid entries are the first ones, all slots behind are zero. */
  class PersistData {
    var validEntries: nat
    const entries: array<Entry>

    ghost predicate Valid()
      reads this, entries
    {
      && validEntries <= entries.Length
      && Good(entries[..validEntries], entries.Length)
      && forall i :: validEntries <= i < entries.Length ==> entries[i] == ZERO_ENTRY
    }

    ghost function Contents(): Table
      reads this, entries
      requires Valid()
    {
      entries[..validEntries]
    }

    /** An empty table in a region of dsize bytes. */
    constructor (dsize: nat)
      requires dsize >= PERSIST_HEADER_SIZE
      ensures Valid() && fresh(entries) && entries.Length == MaxEntries(dsize) && Contents() == []
    {
      validEntries := 0;
      entries := new Entry[MaxEntries(dsize)](_ => ZERO_ENTRY);
    }

    /** A table read from a device copy. */
    constructor FromImage(t: Table, dsize: nat)
      requires dsize >= PERSIST_HEADER_SIZE && Good(t, MaxEntries(dsize))
      ensures Valid() && fresh(entries) && entries.Length == MaxEntries(dsize) && Contents() == t
    {
      validEntries := |t|;
      entries := new Entry[MaxEntries(dsize)](i => if 0 <= i < |t| then t[i] else ZERO_ENTRY);
      new;
      assert entries[..validEntries] == t;
    }

    method PersistGetKey(fieldname: string) returns (r: Option<string>)
      requires Valid()
      ensures r == Lookup(Contents(), fieldname)
    {
      var i := 0;
      while i < validEntries
        invariant i <= validEntries
        invariant forall j :: 0 <= j < i ==> entries[j].key != fieldname
      {
        if entries[i].key == fieldname {
          return Some(entries[i].val);
        }
        i := i + 1;
      }
      return None;
    }

    method PersistSetKey(fieldname: string, value: string) returns (ok: bool)
      requires Valid() && |fieldname| < PROPERTY_KEY_MAX
      modifies this`validEntries, entries
      ensures Valid()
      ensures ok == SetKey(old(Contents()), fieldname, value, entries.Length).Some?
      ensures Contents() == if ok then SetKey(old(Contents()), fieldname, value, entries.Length).value
                            else old(Contents())
    {
      ghost var t := Contents();
      SetKeyGood(t, fieldname, value, entries.Length);
      var num := validEntries;
      var i := 0;
      while i < num
        invariant i <= num == validEntries && Valid() && Contents() == t
        invariant forall j :: 0 <= j < i ==> entries[j].key != fieldname
      {
        if entries[i].key == fieldname {
          assert FindKey(t, fieldname) == Some(i);
          entries[i] := entries[i].(val := StrLCpy(value, PROPERTY_VALUE_MAX));
          assert entries[..validEntries] == SetKey(t, fieldname, value, entries.Length).value;
          return true;
        }
        i := i + 1;
      }
      assert FindKey(t, fieldname) == None;
      if validEntries < entries.Length {
        entries[num] := Entry(StrLCpy(fieldname, PROPERTY_KEY_MAX), StrLCpy(value, PROPERTY_VALUE_MAX));
        validEntries := validEntries + 1;
        assert entries[..validEntries] == SetKey(t, fieldname, value, entries.Length).value;
        return true;
      }
      return false;
    }

    /** Filter out the matching entries in place and zeroise the slots this frees. */
    method PersistDelKeys(fieldname: string, index: nat) returns (rc: DelResult)
      requires Valid()
      modifies this`validEntries, entries
      ensures Valid()
      ensures Contents() == Remove(old(Contents()), fieldname, index)
      ensures rc == DelNoField <==> Contents() == old(Contents())
    {
      hide MatchMultiEntry, Remove;
      ghost var t := Contents();
      var num := validEntries;
      var i, j := 0, 0;
      RemoveGood(t, fieldname, index, entries.Length);
      assert t[..0] == [];
      RemoveNothing([], fieldname, index);
      while i < num
        invariant j <= i <= num == validEntries <= entries.Length
        invariant entries[..j] == Remove(t[..i], fieldname, index)
        invariant forall k :: i <= k < num ==> entries[k] == t[k]
        invariant forall k :: num <= k < entries.Length ==> entries[k] == ZERO_ENTRY
      {
        RemoveStep(t, fieldname, index, i);
        if !MatchMultiEntry(entries[i].key, fieldname, index) {
          ghost var kept := entries[..j];
          entries[j] := entries[i];
          assert entries[..j + 1] == kept + [t[i]];
          j := j + 1;
        }
        i := i + 1;
      }
      assert t[..num] == t;
      if j < num {
        validEntries := j;
        ghost var kept := entries[..j];
        forall k | j <= k < num {
          entries[k] := ZERO_ENTRY;
        }
        assert entries[..j] == kept;
        return DelOk;
      }
      RemoveNothing(t, fieldname, index);
      return DelNoField;
    }

    /** The stores of cryptfs_setfield: the value's chunks, each under its key, up to the first that fails. */
    method PersistSetChunks(fieldname: string, value: string) returns (ok: bool)
      requires Valid() && |fieldname| < PROPERTY_KEY_MAX
      modifies this`validEntries, entries
      ensures Valid()
      ensures ok <==> WriteChunks(old(Contents()), fieldname, value, 0, entries.Length).Some?
      ensures ok ==> Contents() == WriteChunks(old(Contents()), fieldname, value, 0, entries.Length).value
    {
      hide WriteChunks, SetKey, FieldKey, Good;
      ghost var base, max := Contents(), entries.Length;
      var numEntries := NumEntries(value);
      WriteChunksStep(base, fieldname, value, 0, max);
      FirstChunk(fieldname, value);
      ok := PersistSetKey(fieldname, value);
      if !ok {
        return;
      }
      var fieldId := 1;
      while fieldId < numEntries
        invariant 1 <= fieldId <= numEntries && Valid()
        invariant WriteChunks(base, fieldname, value, 0, max) == WriteChunks(Contents(), fieldname, value, fieldId, max)
      {
        WriteChunksStep(Contents(), fieldname, value, fieldId, max);
        var tempField := StoredKey(fieldname, fieldId);
        ok := PersistSetKey(tempField, value[CHUNK * fieldId..]);
        if !ok {
          return;
        }
        fieldId := fieldId + 1;
      }
      WriteChunksStep(Contents(), fieldname, value, fieldId, max);
      return true;
    }

    method PersistCountKeys(fieldname: string) returns (count: nat)
      requires Valid()
      ensures count == CountMatching(Contents(), fieldname, 0)
    {
      count := 0;
      var i := 0;
      while i < validEntries
        invariant i <= validEntries
        invariant count == CountMatching(Contents()[..i], fieldname, 0)
      {
        assert Contents()[..i + 1][..i] == Contents()[..i];
        if MatchMultiEntry(entries[i].key, fieldname, 0) {
          count := count + 1;
        }
        i := i + 1;
      }
      assert Contents()[..validEntries] == Contents();
    }

    /** cryptfs_getfield into a buffer of len characters; on GetOk the buffer holds value. */
    method GetField(fieldname: string, len: nat) returns (rc: GetResult, value: string)
      requires Valid()
      ensures match FieldValue(Contents(), fieldname)
              case None => rc == GetNoField
              case Some(v) => if |v| < len then rc == GetOk && value == v else rc == GetBufTooSmall
    {
      value := "";
      var temp := PersistGetKey(fieldname);
      if temp.None? {
        return GetNoField, value;
      }
      if |temp.value| >= len {
        return GetBufTooSmall, value;
      }
      value := temp.value;
      var i := 1;
      while true
        invariant 1 <= i && |value| < len
        invariant FieldValue(Contents(), fieldname) == Some(value + JoinChunks(Contents(), fieldname, i))
        decreases IndexLimit(fieldname) - i
      {
        var tempField := FieldKey(fieldname, i);
        JoinStep(Contents(), fieldname, i);
        if |tempField| >= PROPERTY_KEY_MAX {
          break;
        }
        temp := PersistGetKey(tempField);
        if temp.None? {
          break;
        }
        FittingIndexBound(fieldname, i);
        assert value + (temp.value + JoinChunks(Contents(), fieldname, i + 1))
            == (value + temp.value) + JoinChunks(Contents(), fieldname, i + 1);
        if |value| + |temp.value| >= len {
          return GetBufTooSmall, value;
        }
        value := value + temp.value;
        i := i + 1;
      }
      assert value + "" == value;
      return GetOk, value;
    }

    /**
     The getfield branch of the command listener: grow the buffer until the value fits.  It ends with the
     whole value, in the smallest buffer of the doubling sequence that holds it.
     */
    method GetFieldCommand(fieldname: string) returns (rc: GetResult, valbuf: string, valbufLen: nat, ghost k: nat)
      requires Valid()
      ensures rc != GetBufTooSmall
      ensures rc == GetOk <==> FieldValue(Contents(), fieldname).Some?
      ensures rc == GetOk ==> FieldValue(Contents(), fieldname) == Some(valbuf) && |valbuf| < valbufLen
      ensures valbufLen == PROPERTY_VALUE_MAX * Pow2(k)
      ensures k > 0 ==> rc == GetOk && |valbuf| >= PROPERTY_VALUE_MAX * Pow2(k - 1)
    {
      valbufLen := PROPERTY_VALUE_MAX;
      k := 0;
      if FieldValue(Contents(), fieldname).Some? {
        FieldValueBound(Contents(), fieldname);
      }
      while true
        invariant valbufLen == PROPERTY_VALUE_MAX * Pow2(k)
        invariant k > 0 ==> FieldValue(Contents(), fieldname).Some?
        invariant k > 0 ==> |FieldValue(Contents(), fieldname).value| >= PROPERTY_VALUE_MAX * Pow2(k - 1)
        decreases CHUNK * validEntries + PROPERTY_VALUE_MAX - valbufLen
      {
        rc, valbuf := GetField(fieldname, valbufLen);
        if rc != GetBufTooSmall {
          break;
        }
        valbufLen := valbufLen * 2;
        k := k + 1;
      }
    }
  }

  /** In a 4096-byte region the listener doubles its buffer at most five times. */
  lemma AtMostFiveDoublings(t: Table, f: string, k: nat)
    requires Good(t, MaxEntries(CRYPT_PERSIST_DATA_SIZE)) && FieldValue(t, f).Some?
    requires k > 0 && |FieldValue(t, f).value| >= PROPERTY_VALUE_MAX * Pow2(k - 1)
    ensures k <= 5
  {
    FieldValueBound(t, f);
    assert MaxEntries(CRYPT_PERSIST_DATA_SIZE) == Pow2(5) == 32;
    if k > 5 {
      Pow2Monotone(5, k - 1);
    }
  }

  /** The metadata partition; the ghost log is the history of operations on it since it was opened. */
  class MetadataDevice {
    var copies: Copies
    ghost const start: Copies
    ghost var log: seq<DevOp>

    ghost predicate Valid()
      reads this
    {
      copies == View(start, log) && (log == [] || log[|log| - 1] == Fsync)
    }

    constructor (found: Copies)
      ensures Valid() && copies == start == found && log == []
    {
      copies, start, log := found, found, [];
    }

    method WriteCopy(slot: Slot, image: Image)
      requires copies == View(start, log)
      modifies this
      ensures log == old(log) + [Write(slot, image)] && copies == View(start, log)
    {
      copies := if slot.First? then copies.(first := image) else copies.(second := image);
      ViewSteps(start, log, Write(slot, image));
      log := log + [Write(slot, image)];
    }

    method Sync()
      requires copies == View(start, log)
      modifies this
      ensures Valid() && log == old(log) + [Fsync] && copies == old(copies)
    {
      ViewSteps(start, log, Fsync);
      log := log + [Fsync];
    }

    /** save_persistent_data: never touch the copy that the reader would pick until the new one is synced. */
    method SavePersistentData(t: Table)
      requires Valid()
      modifies this
      ensures Valid()
      ensures log == old(log) + SaveOps(old(copies), t)
      ensures copies == View(old(copies), SaveOps(old(copies), t))
    {
      ghost var c := copies;
      var writeSlot, eraseSlot;
      if copies.first.Stored? {
        writeSlot, eraseSlot := Second, First;
      } else {
        writeSlot, eraseSlot := First, Second;
      }
      WriteCopy(writeSlot, Stored(t));
      Sync();
      WriteCopy(eraseSlot, Blank);
      Sync();
      assert log == old(log) + SaveOps(c, t);
      SyncedHistory(start, old(log), SaveOps(c, t));
    }
  }

  lemma FirstChunk(f: string, v: string)
    ensures FieldKey(f, 0) == f && v[CHUNK * 0..] == v
  {
  }

  /** The state behind cryptfs_setfield and cryptfs_getfield. */
  class Cryptfs {
    const persist: PersistData
    const device: MetadataDevice
    const encrypted: bool

    ghost predicate Valid()
      reads this, persist, persist.entries, device
    {
      persist.Valid() && device.Valid()
    }

    /** The state that the runs of PersistStorage are about. */
    ghost function Now(): State
      reads this, persist, persist.entries, device
      requires Valid()
    {
      State(persist.Contents(), device.copies)
    }

    /**
     load_persistent_data: an empty table unless the device is encrypted, else the first valid copy, which may
     hold keys more than once.
     */
    constructor Load(encrypted: bool, dsize: nat, device: MetadataDevice)
      requires dsize >= PERSIST_HEADER_SIZE && device.Valid()
      requires Good(PersistStorage.Load(device.copies), MaxEntries(dsize))
      ensures Valid() && this.device == device && this.encrypted == encrypted
      ensures fresh(persist) && fresh(persist.entries)
      ensures persist.Contents() == if encrypted then PersistStorage.Load(device.copies) else []
      ensures persist.entries.Length == if encrypted then MaxEntries(dsize) else 32
    {
      this.encrypted := encrypted;
      this.device := device;
      if !encrypted {
        persist := new PersistData(CRYPT_PERSIST_DATA_SIZE);
      } else {
        var c := device.copies;
        if c.first.Stored? {
          persist := new PersistData.FromImage(c.first.table, dsize);
        } else if c.second.Stored? {
          persist := new PersistData.FromImage(c.second.table, dsize);
        } else {
          persist := new PersistData(dsize);
        }
      }
    }

    /** cryptfs_setfield: the table moves as SetField says, and on success is saved if running encrypted. */
    method SetField(fieldname: string, value: string) returns (rc: SetResult)
      requires Valid()
      modifies persist`validEntries, persist.entries, device
      ensures Valid()
      ensures FieldTable.SetField(old(persist.Contents()), fieldname, value, persist.entries.Length)
           == SetOutcome(rc, persist.Contents())
      ensures device.log == old(device.log)
           + if encrypted && rc == SetOk then SaveOps(old(device.copies), persist.Contents()) else []
      ensures encrypted && rc == SetOk ==> PersistStorage.Load(device.copies) == persist.Contents()
      ensures encrypted ==>
        && device.log == old(device.log) + CallOps(old(Now()), fieldname, value, persist.entries.Length)
        && Step(old(Now()), Returned(fieldname, value), Now(), persist.entries.Length)
    {
      hide WriteChunks, SetKey, InFamily, FieldKey, CountMatching, Remove;
      ghost var t, max := persist.Contents(), persist.entries.Length;
      SetFieldOutcome(t, fieldname, value, max);
      var numEntries := NumEntries(value);
      if GuardLength(fieldname, numEntries) > PROPERTY_KEY_MAX - 1 {
        return SetFieldTooLong;
      }
      var count := persist.PersistCountKeys(fieldname);
      if persist.validEntries + numEntries - count > persist.entries.Length {
        return SetValueTooLong;
      }
      var _ := persist.PersistDelKeys(fieldname, 0);
      var ok := persist.PersistSetChunks(fieldname, value);
      if !ok {
        return SetOther;
      }
      if encrypted {
        SavePrefix(device.copies, persist.Contents(), 4, device.copies);
        device.SavePersistentData(persist.entries[..persist.validEntries]);
      }
      return SetOk;
    }
  }
}
