# Verification of the vold and lidbg cores

This project models the parts of the repository that keep state across calls, across crashes or across
interleavings, and proves what they promise. The code modelled is vold's `cryptfs.c` (persistent fields, in-place
encryption, crypto footer), its volume objects and the move task, its `/proc/mounts` lookup and hex helpers, and the
shell-command FIFO, string replacement and register bit fields of the lidbg driver core.

Code that works by changing things in place is a class or a method here, proved against a function on values. The
properties are then lemmas about those functions, over all inputs and, where the code is called again and again, over
all runs.

| file | contents |
|---|---|
| `Common.dfy`, `Decimal.dfy` | options, bytes, powers of two, battery stops; what `%d` prints, its length and powers of ten |
| `FieldTable.dfy` | the persistent field table on values: chunk keys, families, set, get, and their laws |
| `FieldLaws.dfy` | the same in characters: what is in a family, what a set leaves alone, what a fresh table takes |
| `FieldStore.dfy` | the table on the slot array, the device with its two copies, the growing getfield buffer |
| `PersistStorage.dfy` | the two copies under power loss, and runs of calls with power losses in between |
| `GroupEncryption.dfy` | in-place encryption of used ext4 blocks by groups, with stops on low battery |
| `Handover.dfy` | a stopped group encryption and the full copy that resumes it |
| `FullCopy.dfy` | the sector-wise copy that stops and resumes |
| `CryptFooter.dfy` | the footer flags over starts, failures, power losses and resumptions |
| `VolumeModel.dfy`, `Volume.dfy` | the life cycle of stacked volumes on values and on objects, and their events |
| `VolumeStates.dfy` | the diagram of states that the events of one volume follow |
| `MoveTask.dfy` | the move of data between two volumes |
| `UeventFifo.dfy` | the length-framed FIFO with the space check outside the lock |
| `MountLookup.dfy`, `StringReplace.dfy`, `Hex.dfy` | the mount table lookup, in-place replace-all, hex text |
| `BitField.dfy` | bit fields of 32-bit registers |

## Where the code does not keep a promise

Each of these has an input for which the promise fails and an equivalence that says exactly when it holds.

- **Field round trip.** The name-length guard of `cryptfs_setfield` takes `1 + log10(n)` for the length of the longest
  suffix of a value with `n` chunks, which is one short unless `n` is 1 or a power of ten (`GuardMissesLongKeys`).
  Past it, `snprintf` cuts the chunk keys and the call still returns success, with the value lost
  (`LongNameLosesValue`). The value reads back if and only if the longest chunk key fits (`SetThenGet`); the comment in
  `cryptfs_getfield` that longer names cannot have been written is not what the code does.
- **Other fields.** A cut key can be the name of an unrelated field (`CutKeyHitsOtherField`). It is only ever the
  name with an underscore behind it: an unrelated field reads as before if and only if it is not that one, or reads
  as the last chunk anyway (`SetKeepsOtherFields`).
- **Group encryption.** The block bitmaps are read from the blocks being encrypted. The result is right if and only if
  each bitmap, as it reads when its turn comes, still says the same about its group
  (`GroupsExactIffBitmapsSurvive`); `StrayBitmapFails` has a layout where one does not.
- **Handover.** A group encryption stopped by a low battery reports the block where its last run starts times 512, less
  one, as the last sector, although a block has at most 8 sectors; and the run pending at the stop is dropped. The full
  copy that the next call resumes with leaves every used block encrypted once if and only if the reported sector lies
  in front of every used block not dealt with before the stop (`HandoverExactIff`); `StopLosesBlock` has a stop after
  which a used block stays plain while the volume is taken for encrypted. A run that starts at block 0 is reported
  as -1, after which the next call goes by groups again (`ReportNotResumed`, `EnableInplaceExt4`).
- **Full copy.** A copy resumed from inside the last partial 4K block, or a fresh copy of a volume of less than 8
  sectors, runs past the end of the volume (`TinyVolumeOverruns`); a run that goes through is exact if and only if it
  is neither (`FinishExactIffResumePoint`). Copies that can go through at all never resume there
  (`ResumedExactlyOnce`). A fresh copy starts at sector 1, so sector 0 is never written.
- **Progress.** The progress estimate of the full copy divides by zero if and only if the loop over whole blocks is
  entered with fewer than 100 of them (`EnableInplaceFull`); for a fresh copy, from 16 to 799 sectors
  (`FreshDividesByZero`). That of the group encryption does with fewer than 100 used blocks (`EnableInplaceExt4`).
- **Retry.** After a copy that broke off, a second call in the same boot starts afresh with a new key
  (`RetryIsReachable`) and ends up reporting ENCRYPTED, or PARTIAL on a battery stop; that is right if and only if no
  sector had been encrypted (`RetryHonestIffUntouched`). Among all events, starting over on encrypted sectors is the
  only one that makes the footer untruthful (`StepHonestIffLegal`, over runs `RunsHonestIffLegal`).
- **FIFO.** The records stay whole if and only if the queue really holds `NeededCapacity` bytes
  (`FramingIffCapacity`). `kfifo_alloc` makes the size a power of two; up or down decides whether that is so
  (`RoundedCapacities`).
- **Volume life cycle.** A volume stacked on a mounted one can be destroyed by itself, and then the next unmount of the
  one below trips a CHECK (`LoneDestroyTripsUnmount`). After a call anywhere above a mounted volume, its unmount meets
  no failing CHECK, the destructors' included, if and only if the call is one that `KeepsLife` describes
  (`NextUnmountPassesIff`); clients that make only such calls never trip any (`RunsStayStable`).
- **Volume events.** A volume mounted before it is created is heard of outside any bracket
  (`MountBeforeCreateBreaks`). A mount, an unmount or a format is heard properly if and only if it is refused, or the
  volume is created or silent and no id is stacked twice (`MountBracketsIff`, `UnmountBracketsIff`,
  `FormatBracketsIff`). A run that trips no CHECK is heard properly throughout if and only if all its calls are
  (`RunsAreBracketed`).

## Assumptions

- Strings are sequences of characters without the terminator. Sizes and counters are unbounded; the code's unsigned
  arithmetic does not wrap in the ranges used.
- The cipher is an arbitrary function of key, position and data, the used bit an arbitrary function of the bitmap
  block. Where a lemma says that something goes wrong, it asks that the cipher changes the data on the disk at hand, or
  that two keys do not happen to agree on it.
- A write to one copy of the field table, a footer write and a sector write are atomic. Writes to the two copies may
  each be lost until the next sync; of the sectors that a broken-off copy has written, any may have reached the disk.
  When a copy returns, all its sectors have; the code does not sync them but waits two seconds.
- `ro.crypto.state` reads "encrypted" after a boot if and only if there is a footer. `is_battery_ok_to_start` is true,
  as `CheckBattery.cpp` has it; `is_battery_ok_to_continue` is an arbitrary answer after each block.
- A stacked volume is held by the list of the volume below only, so clearing the list runs its destructor.
- `sscanf` with `_%d` takes an underscore, white space, a sign and digits, ignores what follows, and stores the number
  modulo 2^32 (what an overflowing number does is open in C; only index 0 is ever passed, for which it does not matter).

## Model

| member | source | states |
|---|---|---|
| FieldTable.ChunkKeyInFamily | app/8996_vold_60/cryptfs.c:3729-3753 | a chunk key of g is matched as part of field f exactly when g itself is, or when it is the string f |
| FieldLaws.InFamilyIff | app/8996_vold_60/cryptfs.c:3729-3753 | a key belongs to field f exactly if it is f, or f, an underscore, white space, at most one sign, a digit and anything |
| FieldLaws.MatchesFromIndex | app/8996_vold_60/cryptfs.c:3729-3753 | from an index on, exactly the chunks with that index or a greater one are matched |
| FieldLaws.NamedNeighbourKept | app/8996_vold_60/cryptfs.c:3749-3751 | a field f_rest, whose rest does not start like a number, reads as before after f has been set, if and only if no cut key does harm |
| FieldLaws.UserNameKept | app/8996_vold_60/cryptfs.c:3749-3751 | setting user keeps user_name and removes a stale chunk user_1 |
| FieldTable.FieldKeyInjective | app/8996_vold_60/cryptfs.c:3947-3948 | the chunks of a field have distinct keys |
| FieldTable.RemoveCount | app/8996_vold_60/cryptfs.c:3795-3812 | persist_count_keys counts exactly the entries that persist_del_keys drops |
| FieldTable.LookupAfterRemove | app/8996_vold_60/cryptfs.c:3763-3793 | after a delete the matching keys are gone and every other key reads as before |
| FieldTable.SetFieldOutcome | app/8996_vold_60/cryptfs.c:3908-3952 | the two guards decide: a set succeeds exactly when both pass, no store can then fail, other outcomes leave the table alone, the table stays within capacity and its keys unique if they were |
| FieldTable.GuardMissesLongKeys | app/8996_vold_60/cryptfs.c:3917-3925 | exactly which names and chunk counts pass the length guard although their last chunk key does not fit |
| FieldTable.SetFieldOwnChunk | app/8996_vold_60/cryptfs.c:3934-3952 | after a set whose keys fit, chunk key i holds chunk i of the value and no stale later chunk is left |
| FieldTable.SetFieldLookup | app/8996_vold_60/cryptfs.c:3934-3952 | the effect of any successful set on every key, cut keys included: a key stored under holds the last chunk stored there, any other key of the family is gone, every other key keeps its binding |
| FieldTable.SetThenGet | app/8996_vold_60/cryptfs.c:3815-3966 | after a successful set the field reads back as the value if and only if its longest chunk key fits |
| FieldTable.SetKeepsOtherFields | app/8996_vold_60/cryptfs.c:3850-3869 | a successful set leaves what an unrelated field reads as unchanged if and only if no cut key hits that field with a value it did not have |
| FieldTable.CutKeyValue | app/8996_vold_60/cryptfs.c:3945-3952 | the one field a cut key can hit ends up with the last chunk as its value |
| FieldTable.OutsideFamiliesUnrelated | app/8996_vold_60/cryptfs.c:3729-3753 | two names neither of which is in the other's family are unrelated |
| FieldTable.SetErasesFamilyMembers | app/8996_vold_60/cryptfs.c:3934-3936 | a successful set of f erases a field whose name lies in f's family if and only if it stores nothing under that name |
| FieldTable.FieldValueBound | app/8996_vold_60/cryptfs.c:3843-3871 | whatever the table holds, a field is no longer than all slots together |
| FieldTable.LastWriteWins | app/8996_vold_60/cryptfs.c:3880-3966 | over any run of sets of g and of unrelated fields, the last one with an effect on g decides: g reads as its own write if and only if the keys of that write fit, or as the chunk that another field's cut key brought in |
| FieldLaws.FreshTableTakes | app/8996_vold_60/cryptfs.c:3917-3952 | a run of sets of unrelated names with fitting keys on an empty table succeeds throughout if and only if the values have no more chunks in all than the table has entries |
| FieldLaws.FreshTableReadsBack | app/8996_vold_60/cryptfs.c:3815-3966 | and then every one of the values reads back |
| FieldLaws.UnencryptedCapacity | app/8996_vold_60/cryptfs.c:3663-3667 | without encryption the table has 32 entries |
| FieldTable.LongNameLosesValue | app/8996_vold_60/cryptfs.c:3917-3952 | a 30-character name with a 92-character value is accepted and does not read back |
| FieldTable.CutKeyHitsOtherField | app/8996_vold_60/cryptfs.c:3945-3952 | such a set also makes an unrelated field appear |
| FieldStore.PersistData.constructor | app/8996_vold_60/cryptfs.c:810-816 | a new table is empty, with as many slots as its region holds |
| FieldStore.PersistData.PersistGetKey | app/8996_vold_60/cryptfs.c:3672-3688 | the value of the first entry with the key |
| FieldStore.PersistData.PersistSetKey | app/8996_vold_60/cryptfs.c:3690-3723 | the entry is updated or appended, or the table is full and unchanged |
| FieldStore.PersistData.PersistDelKeys | app/8996_vold_60/cryptfs.c:3763-3793 | the in-place compaction leaves the non-matching entries in order and zero slots behind them |
| FieldStore.PersistData.PersistCountKeys | app/8996_vold_60/cryptfs.c:3795-3812 | the number of entries in the family |
| FieldStore.PersistData.PersistSetChunks | app/8996_vold_60/cryptfs.c:3938-3952 | the chunks are stored one after the other as on values, until a store fails |
| FieldStore.PersistData.GetField | app/8996_vold_60/cryptfs.c:3815-3877 | the whole joined value if it fits the buffer, else too small, else no field |
| FieldStore.PersistData.GetFieldCommand | app/8996_vold_60/CryptCommandListener.cpp:256-283 | the doubling loop ends with the whole value, in the smallest buffer of the sequence that holds it |
| FieldStore.AtMostFiveDoublings | app/8996_vold_60/CryptCommandListener.cpp:266-279 | in a 4096-byte region five doublings always suffice |
| FieldStore.MetadataDevice.SavePersistentData | app/8996_vold_60/cryptfs.c:1076-1178 | a save appends exactly write, sync, erase, sync to the device history, writing the copy that is not the first valid one |
| FieldStore.Cryptfs.Load | app/8996_vold_60/cryptfs.c:981-1074 | the table is empty with 32 slots, or on an encrypted device that of the first valid copy, repeated keys included, in the slots of its region |
| FieldStore.Cryptfs.SetField | app/8996_vold_60/cryptfs.c:3880-3966 | the in-place set has the outcome of SetField on values; on an encrypted device its device operations and its effect are those of a step in the runs with power losses |
| PersistStorage.SaveIsCrashAtomic | app/8996_vold_60/cryptfs.c:1129-1167 | power lost after any step, with any unsynced writes lost, leaves the old or the new table, and after all steps the new one |
| PersistStorage.LostPowerLoads | app/8996_vold_60/cryptfs.c:1038-1067 | which of the two tables is loaded after power was lost in the middle of a save |
| PersistStorage.FirstCopyCounts | app/8996_vold_60/cryptfs.c:1038-1060 | of two valid copies the first counts, with none the table is empty |
| PersistStorage.SyncedHistory | app/8996_vold_60/cryptfs.c:1155-1162 | after a sync only what the program sees matters for what a later power loss can leave |
| PersistStorage.StepIsAtomic | app/8996_vold_60/cryptfs.c:3880-3966 | one call, complete or cut short, keeps memory and disk in agreement and moves the table all the way or not at all |
| PersistStorage.RunsAreAtomic | app/8996_vold_60/cryptfs.c:981-1178 | over any run of sets and power losses each field reads as before or after the call, never mixed, and a valid copy is never lost; after the call the written field holds the value if and only if its keys fit, and an unrelated field is unchanged if and only if no cut key does harm |
| GroupEncryption.EncryptGroupsData.FlushOutstandingData | app/8996_vold_60/cryptfs.c:2579-2609 | the pending run, and nothing else, is encrypted once in place |
| GroupEncryption.EncryptGroupsData.EncryptBlocks | app/8996_vold_60/cryptfs.c:2648-2684 | the batched loop encrypts exactly the blocks that the bitmap marks, in writes that never leave an aligned window; on a stop it drops the pending run and has on record where the last run started |
| GroupEncryption.EncryptGroupsData.EncryptOneGroup | app/8996_vold_60/cryptfs.c:2634-2687 | a group is dealt with as its bitmap, read at its turn, says, up to a stop |
| GroupEncryption.EncryptGroupsData.EncryptGroups | app/8996_vold_60/cryptfs.c:2611-2695 | all groups in turn until a stop; without one and with local bitmaps every used block is encrypted exactly once and no other changes |
| GroupEncryption.EncryptGroupsData.EnableInplaceExt4 | app/8996_vold_60/cryptfs.c:2697-2786 | refused exactly when a copy is to be resumed, dies exactly with less than 100 used blocks, else reports the size or the last written sector |
| GroupEncryption.RunCompletes | app/8996_vold_60/cryptfs.c:2631-2691 | a run that is not stopped is that of all groups |
| GroupEncryption.GroupUnique | app/8996_vold_60/cryptfs.c:2634-2636 | a block lies in at most one group |
| GroupEncryption.GroupOf | app/8996_vold_60/cryptfs.c:2634-2636 | every block from the first data block on lies in a group, and which one it is |
| GroupEncryption.UsedIffBit | app/8996_vold_60/cryptfs.c:2634-2652 | block b is in use exactly if bit r of bitmap q says so, where b lies q groups and r blocks behind the first data block |
| GroupEncryption.RunStartIs | app/8996_vold_60/cryptfs.c:2651-2672 | the pending run is made up of used blocks of one window and is as long as it can be |
| GroupEncryption.LastRunIs | app/8996_vold_60/cryptfs.c:2604-2607 | the last run is that of the last used block |
| GroupEncryption.PrefixExact | app/8996_vold_60/cryptfs.c:2631-2688 | after n groups whose bitmaps survived, exactly the blocks used in them are encrypted once |
| GroupEncryption.GroupsExactIffBitmapsSurvive | app/8996_vold_60/cryptfs.c:2631-2688 | the whole run is exact if and only if every bitmap survives until it is read |
| GroupEncryption.LocalBitmapsExact | app/8996_vold_60/cryptfs.c:2638-2646 | bitmaps outside the used blocks of earlier groups suffice |
| GroupEncryption.StrayBitmapFails | app/8996_vold_60/cryptfs.c:2638-2646 | two groups, the second one's bitmap in a used block of the first: the bitmap does not survive and the result is not exact |
| Handover.StoppedExact | app/8996_vold_60/cryptfs.c:2674-2678 | when a run stops, exactly the used blocks before the pending run are encrypted, each once |
| Handover.ReportIsLastRun | app/8996_vold_60/cryptfs.c:2604-2607 | the sector reported is 0 or the first block of the last run times 512, less one, and no encrypted block lies a window or more behind that block |
| Handover.HandoverExactIff | app/8996_vold_60/cryptfs.c:2779-2779 | after a stop and the resumed copy every used block is encrypted once if and only if the sector reported lies in front of every used block that the stopped run had not dealt with |
| Handover.ReportNotResumed | app/8996_vold_60/cryptfs.c:2708-2711 | a report that is not resumed from is 0, with nothing written, or -1, with nothing written behind the first 8 blocks |
| Handover.StopLosesBlock | app/8996_vold_60/cryptfs.c:3047-3050 | 128 used blocks and a stop after block 16: sector 4095 of 1024 is reported, and block 16 is never encrypted |
| FullCopy.EnableInplaceFull | app/8996_vold_60/cryptfs.c:2916-3034 | the three loops encrypt one span of sectors once and report where they stopped, or die exactly when the progress estimate divides by zero; a run that goes through has encrypted exactly the rest of the volume if and only if it resumed within the whole blocks |
| FullCopy.FinishExactIffResumePoint | app/8996_vold_60/cryptfs.c:2952-3025 | the sectors of a run that goes through are those with exactly the rest of the volume encrypted if and only if it resumed within the whole blocks |
| FullCopy.TinyVolumeOverruns | app/8996_vold_60/cryptfs.c:2946-3025 | a fresh copy of 7 sectors ends at sector 14 |
| FullCopy.FreshDividesByZero | app/8996_vold_60/cryptfs.c:2979-2983 | a fresh copy divides by zero exactly from 16 to 799 sectors |
| FullCopy.StopMakesProgress | app/8996_vold_60/cryptfs.c:3004-3009 | a stopped run got at least a block further, to a point it can be resumed from |
| FullCopy.StopsBehindFirstLow | app/8996_vold_60/cryptfs.c:3004-3009 | a run stops behind the first block after which the battery is low, with that block's last sector on record |
| FullCopy.GoesThroughUnlessLow | app/8996_vold_60/cryptfs.c:2980-3027 | a run whose battery is never low goes through and reports the size |
| FullCopy.ResumedExactlyOnce | app/8996_vold_60/cryptfs.c:2945-3027 | over any pattern of stops exactly the sectors from 1 to the recorded point are encrypted, each once |
| FullCopy.ResumedFinishes | app/8996_vold_60/cryptfs.c:2980-3027 | the copy is over after at most one run more than there are blocks |
| CryptFooter.UserData.EnableInternal | app/8996_vold_60/cryptfs.c:3179-3443 | the flag, key and progress updates of a call that only its own division by zero cuts short are those of the footer machine |
| CryptFooter.StepKeepsHonest | app/8996_vold_60/cryptfs.c:3208-3223 | every start, failure, power loss with any sector writes lost, stop and resumption keeps the footer truthful, except a start over on sectors already encrypted |
| CryptFooter.StepHonestIffLegal | app/8996_vold_60/cryptfs.c:3208-3229 | the footer stays truthful over an event if and only if it is not such a start over |
| CryptFooter.RunsAreHonest | app/8996_vold_60/cryptfs.c:1983-2000 | over every run without such a start over ENCRYPTED is reported only with all sectors from 1 encrypted once with the key of the footer, PARTIAL only with exactly those up to encrypted_upto, and the two flags are never both set |
| CryptFooter.RunsHonestIffLegal | app/8996_vold_60/cryptfs.c:3208-3318 | over any run the footer is truthful at every moment if and only if no call starts over on encrypted sectors |
| CryptFooter.RetryHonestIffUntouched | app/8996_vold_60/cryptfs.c:3225-3318 | a start over in the same boot, with its new key, reports ENCRYPTED, or PARTIAL on a stop, and is truthful if and only if no sector was encrypted |
| CryptFooter.RetryIsReachable | app/8996_vold_60/cryptfs.c:3225-3318 | from a plain device, a call whose copy breaks off and a second call in the same boot leave an untruthful footer |
| CryptFooter.AnswersByHistory | app/8996_vold_60/cryptfs.c:1948-2000 | over every run from a plain device the answer is the one that the history of calls and boots says |
| CryptFooter.CutShortIsInconsistent | app/8996_vold_60/cryptfs.c:1989-1992 | a call that went ahead and was cut short is answered with INCONSISTENT from the next boot on, until a call returns |
| CryptFooter.NotEncryptedIffNeverStarted | app/8996_vold_60/cryptfs.c:1954-1958 | after a boot NOT_ENCRYPTED is answered if and only if no call has ever gone ahead |
| CryptFooter.ResumeFailsInconsistent | app/8996_vold_60/cryptfs.c:3208-3223 | a resumed call whose checks fail leaves the footer inconsistent, with nothing to resume from |
| VolumeModel.StableCanDestroy | app/8996_vold_60/VolumeBase.cpp:178-192 | in a stable tree no destroy meets a volume that is not created, and no destructor one that is |
| VolumeModel.OpStableIff | app/8996_vold_60/VolumeBase.cpp:163-249 | on one volume, an operation trips no CHECK and keeps the life-cycle invariant if and only if it is one the life cycle allows |
| VolumeModel.ApplyStableIff | app/8996_vold_60/VolumeBase.cpp:163-249 | the same for any operation anywhere in the tree |
| VolumeModel.NextUnmountPassesIff | app/8996_vold_60/VolumeBase.cpp:215-233 | after a call anywhere above a mounted volume that met no failing CHECK, that volume's unmount meets none if and only if the life cycle allows the call |
| VolumeModel.LoneDestroyTripsUnmount | app/8996_vold_60/VolumeBase.cpp:178-228 | a stacked volume destroyed by itself makes the next unmount of the one below fail |
| VolumeModel.RunsStayStable | app/8996_vold_60/VolumeBase.cpp:43-249 | clients that keep to the life cycle never make a CHECK fail |
| VolumeModel.StackedCloseFirst | app/8996_vold_60/VolumeBase.cpp:221-232 | every stacked volume's bracket has closed when its parent leaves the ejecting state |
| VolumeModel.DestroyInOrder | app/8996_vold_60/VolumeBase.cpp:222-228 | stacked volumes are destroyed in the order in which they were stacked |
| VolumeModel.OpMoves | app/8996_vold_60/VolumeBase.cpp:134-249 | every operation that trips no CHECK and keeps the brackets moves the set of open brackets exactly as the set of created and audible volumes |
| VolumeModel.MountBracketsIff | app/8996_vold_60/VolumeBase.cpp:198-213 | the events of a mount keep the brackets with the volumes heard if and only if the mount is refused, or the volume is created or silent and no id is stacked twice |
| VolumeModel.UnmountBracketsIff | app/8996_vold_60/VolumeBase.cpp:215-233 | those of an unmount if and only if it is refused or the volume is created or silent |
| VolumeModel.FormatBracketsIff | app/8996_vold_60/VolumeBase.cpp:235-249 | likewise those of a format |
| VolumeModel.OpBracketsIff | app/8996_vold_60/VolumeBase.cpp:134-249 | among the operations that trip no CHECK, exactly those that keep the brackets are heard properly |
| VolumeModel.ApplyBracketsIff | app/8996_vold_60/VolumeBase.cpp:134-249 | the same for any operation anywhere in the tree |
| VolumeModel.RunsAreBracketed | app/8996_vold_60/VolumeBase.cpp:92-249 | over every run that trips no CHECK, the open brackets are at each moment exactly those of the created and audible volumes if and only if every call keeps the brackets |
| VolumeStates.RunsAreHeard | app/8996_vold_60/VolumeBase.cpp:47-50 | over every properly bracketed run the events with an id follow the diagram of states, and end with the state of the volume with that id |
| VolumeStates.LastHeardIsState | app/8996_vold_60/VolumeBase.cpp:47-50 | wherever a volume sits, the last state heard of it is the one it is in |
| VolumeModel.MountBeforeCreateBreaks | app/8996_vold_60/VolumeBase.cpp:198-213 | mounting a volume never created broadcasts outside a bracket |
| Volume.VolumeBase.SetSilent | app/8996_vold_60/VolumeBase.cpp:92-100 | refused with -EBUSY while created, else the flag changes and nothing else |
| Volume.VolumeBase.SetMountFlags | app/8996_vold_60/VolumeBase.cpp:72-80 | the flags are set if unmounted or unmountable, else refused with -EBUSY |
| Volume.VolumeBase.Create | app/8996_vold_60/VolumeBase.cpp:163-172 | the object becomes created and unmounted, with its events in order |
| Volume.VolumeBase.Destroy | app/8996_vold_60/VolumeBase.cpp:178-192 | the object tree and the broadcast log change as the recursive destroy of its value says; the state is then bad removal exactly if it was mounted, else removed, and an audible volume is heard with that state and then as destroyed |
| Volume.VolumeBase.Unmount | app/8996_vold_60/VolumeBase.cpp:215-233 | likewise for unmount, which destroys every stacked volume in turn; it is refused with -EBUSY unless mounted |
| Volume.VolumeBase.DestroyStacked | app/8996_vold_60/VolumeBase.cpp:222-228 | every volume of the list is destroyed in turn, and then nothing on it is still created |
| Volume.VolumeBase.Mount | app/8996_vold_60/VolumeBase.cpp:198-213 | likewise for mount with any sequence of doMount steps; it returns the status of doMount and ends mounted or unmountable by it, or is refused with -EBUSY |
| Volume.VolumeBase.StackNew | app/8996_vold_60/PrivateVolume.cpp:169-175 | a new created volume is stacked on top of those before |
| Volume.VolumeBase.Format | app/8996_vold_60/VolumeBase.cpp:235-249 | likewise for format, which unmounts first; it returns the status of doFormat, ends unmounted and is heard formatting and then unmounted, or is refused with -EBUSY |
| MoveTask.BringOffline | app/8996_vold_60/MoveTask.cpp:159-165 | only the destroy is heard; the volume is then created, silent and mounted or unmountable |
| MoveTask.BringOnline | app/8996_vold_60/MoveTask.cpp:167-171 | the volume is created, audible and unmounted |
| MoveTask.Run | app/8996_vold_60/MoveTask.cpp:173-221 | whatever the commands do, both volumes, or the one moved onto itself, end up created, audible and unmounted, and the events heard of them are exactly these |
| UeventFifo.TakeFirstRecord | core/lidbg_uevent.c:155-162 | a reader takes exactly the first of the whole records |
| UeventFifo.RoomForTwice | core/lidbg_uevent.c:235-239 | a writer goes on exactly if the queue is not full and its bytes with twice the command come to less than 78000 |
| UeventFifo.InFillsUp | core/lidbg_uevent.c:240-244 | what goes in stands behind what was there, cut off only where the queue is full |
| UeventFifo.OutSplits | core/lidbg_uevent.c:154-162 | what comes out and what is left make up the queue |
| UeventFifo.PassKeepsBounded | core/lidbg_uevent.c:235-239 | a writer that passes the space check, together with all that passed before it, still fits into NeededCapacity |
| UeventFifo.StepKeepsBounded | core/lidbg_uevent.c:226-249 | with enough capacity every atomic step of writers and readers keeps the queue framed and bounded |
| UeventFifo.FramingIffCapacity | core/lidbg_uevent.c:147-249 | in every interleaving with at most so many writers past the check each accepted command is read back whole, once, in order, if and only if the queue holds NeededCapacity |
| UeventFifo.RoundedCapacities | core/lidbg_uevent.c:207-211 | what the two ways of rounding FIFO_SIZE to a power of two mean for that |
| UeventFifo.CmdFifo.InsertLocked | core/lidbg_uevent.c:240-244 | header and bytes go in as far as there is room |
| UeventFifo.CmdFifo.ReadLocked | core/lidbg_uevent.c:154-166 | the record at the head is taken, or nothing if there is no header |
| MountLookup.ParsePrinted | app/8996_vold_60/secdiscard.cpp:196-215 | parsing a table recovers the devices and mount points it was printed from |
| MountLookup.ParsesIffPrinted | app/8996_vold_60/secdiscard.cpp:196-215 | a text parses into given mounts if and only if it is a printed table of them |
| MountLookup.FindBlockDeviceForPath | app/8996_vold_60/secdiscard.cpp:188-236 | succeeds if and only if the text is a printed table with some mount point above the path, and gives the device of the first line with the longest one |
| MountLookup.CoversIffBelow | app/8996_vold_60/secdiscard.cpp:218-221 | a mount point lies above a path exactly if the path goes on from it with a slash |
| MountLookup.BestIsLongest | app/8996_vold_60/secdiscard.cpp:218-225 | no mount point above the path is longer than the one chosen, and an equal one comes later |
| MountLookup.RootCoversOnlyDoubleSlash | app/8996_vold_60/secdiscard.cpp:218-221 | the root mount is chosen only for paths that start with two slashes |
| StringReplace.CharBuffer.StrRpl | core/lidbg_cmn.c:391-421 | the in-place loop terminates with the replaced text, for any replacement including an empty one, and needs its scratch array only if the key occurs |
| StringReplace.ReplaceIsLeftmost | core/lidbg_cmn.c:400-419 | the result is the leftmost, non-overlapping cut of the text at the key, joined with the replacement |
| StringReplace.CutExists | core/lidbg_cmn.c:400-419 | every text has such a cut |
| Hex.HexToStr | app/8996_vold_60/Utils.cpp:425-462 | the loop succeeds exactly on texts that decode, and gives the bytes |
| Hex.StrToHex | app/8996_vold_60/Utils.cpp:464-473 | two lower-case digits for each byte |
| Hex.NormalizeHex | app/8996_vold_60/Utils.cpp:475-481 | the composition of the two, or an error |
| Hex.DecodeEncode | app/8996_vold_60/Utils.cpp:425-473 | HexToStr undoes StrToHex |
| Hex.AlphabetDigits | app/8996_vold_60/Utils.cpp:433-448 | each digit, lower or upper case, is worth its position in the alphabet |
| Hex.NibblesIffAdmitted | app/8996_vold_60/Utils.cpp:432-452 | a text is refused for its characters exactly if one is no digit of either case, blank, dash or colon |
| Hex.PairDecodes | app/8996_vold_60/Utils.cpp:433-457 | two digits behind whole bytes make one more byte |
| Hex.EncodedAt | app/8996_vold_60/Utils.cpp:464-473 | the digits written are lower case, the high one first |
| Hex.UpperCaseNormalised | app/8996_vold_60/Utils.cpp:475-481 | AB and A-B normalise to ab, ABC and AG are refused |
| Hex.NormalizeIsCanonical | app/8996_vold_60/Utils.cpp:475-481 | normalising keeps the bytes, is idempotent, and leaves exactly what StrToHex writes unchanged |
| Hex.NormalizeEqualIffSameBytes | app/8996_vold_60/Disk.cpp:163-173 | two texts lead to the same key path exactly if they stand for the same bytes |
| Hex.SeparatorsIgnored | app/8996_vold_60/Utils.cpp:432 | blanks, dashes and colons may be put in anywhere |
| Hex.CaseIgnored | app/8996_vold_60/Utils.cpp:433-448 | a digit may be written in lower or upper case |
| BitField.MaskLoop | core/lidbg_mem.c:111-113 | the loop sets the lowest bits, all of them for a width of 0 |
| BitField.Register.WriteAddrBit | core/lidbg_mem.c:106-121 | the register changes as WriteBits says |
| BitField.Register.ReadAddrBit | core/lidbg_mem.c:164-176 | the bits of the field, shifted down |
| BitField.MaskValue | core/lidbg_mem.c:111-113 | the mask of a field is 2^num - 1 |
| BitField.ReadAfterWrite | core/lidbg_mem.c:106-176 | a read after a write gives the value modulo 2^num, and no bit outside the field changes |
| BitField.DisjointWrites | core/lidbg_mem.c:106-121 | writes to disjoint fields commute and do not disturb each other's reads |

## Left out

- Key derivation, keymaster, device-mapper set-up, file-based encryption and the hardware encryption variant: foreign
  calls without logic of their own; the non-hardware block count of 8 is used.
- Failing or short device reads and writes, failing allocations, and the fall-back from one in-place method to the next in one call.
- The f2fs method: the driver of its loop is not part of the repository.
- FullCopy.EnableInplaceFull: starts from `*size_already_done == 0`, as its only caller does.
- Handover.HandoverExactIff: is about blocks of up to 4096 bytes and a first call that goes by groups; a second group run after a report of -1 is not followed further.
- CryptFooter.UserData.EnableInternal: does not model the narrowing of the resume point to `int` between two calls, which only matters beyond 2^31 sectors.
- CryptFooter.RunsAreHonest: takes the sectors of a copy that has returned as durable; the code syncs only by waiting two seconds.
- `CRYPT_DATA_CORRUPT`, which is set when an encrypted device fails to start, and file-based encryption in `do_crypto_complete`.
- The "wipe" method of enabling encryption, progress percentages, time estimates, logs, wake locks and properties other than `ro.crypto.state`.
- FieldStore.Cryptfs.Load: asks that a stored copy does not claim more entries than its region holds, nor strings without an end; the code would read beyond them.
- The read of a footer that fails while fields are set, which would turn the capacity into a huge number.
- Volume ids, disk ids, partition GUIDs and mount users as changeable fields: their setters have the guards of the ones modelled; the id is fixed.
- VolumeModel.RunsAreBracketed: ends where a CHECK fails, and takes the ids of newly stacked volumes as unused.
- Threads in vold: operations on volumes follow one another.
- MoveTask.Run: the mounts of the volumes moved between stack nothing, as with emulated and public volumes, progress messages are not in the event log, and the copy and remove commands are answers given from outside.
- The queue's own index arithmetic, the failing copy to user space and the reader's scratch buffer in `lidbg_uevent_read`; its length is read in one step by the space check.
- StringReplace.CharBuffer.StrRpl: asks for a non-empty key, without which the loop does not end, and for room for the text before and after.
- BitField.Register.WriteAddrBit: requires an offset below 32, since C leaves longer shifts open; the mapping from a physical address to its register is not modelled.
- Partition tables, containers, sockets, process killing and the other kernel modules: calls into the kernel or other programs, with no state of their own that is kept across calls.
