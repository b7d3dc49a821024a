/**
 The persistent field table of cryptfs.c as a value: a sequence of (key, value) entries, the operations
 on it, and the properties of those operations.  Class FieldStore.PersistData runs the same operations
 in place on an array and is proved against the functions here.
 */
module FieldTable {
  import opened Common
  import opened Decimal

  const PROPERTY_KEY_MAX := 32
  const PROPERTY_VALUE_MAX := 92

  /** The number of characters of a value that one entry can hold. */
  const CHUNK := PROPERTY_VALUE_MAX - 1

  const CRYPT_PERSIST_DATA_SIZE := 0x1000
  const PERSIST_HEADER_SIZE := 128
  const PERSIST_ENTRY_SIZE := PROPERTY_KEY_MAX + PROPERTY_VALUE_MAX

  datatype Entry = Entry(key: string, val: string)
  type Table = seq<Entry>

  datatype SetResult = SetOk | SetFieldTooLong | SetValueTooLong | SetOther
  datatype SetOutcome = SetOutcome(rc: SetResult, table: Table)

  // ----- Strings -------------------------------------------------------------------------------

  /** What strlcpy(dst, s, size) leaves in dst. */
  function StrLCpy(s: string, size: nat): (r: string)
    requires size > 0
    ensures |r| < size && r <= s
    ensures |r| == if |s| < size then |s| else size - 1
  {
    if |s| < size then s else s[..size - 1]
  }

  /** The key of chunk i of field f: "f" itself, then "f_1", "f_2", ... */
  function FieldKey(f: string, i: nat): (k: string)
    ensures f <= k
  {
    if i == 0 then f else f + "_" + Numeral(i)
  }

  /** The key under which chunk i of f is stored, as snprintf leaves it in temp_field. */
  function StoredKey(f: string, i: nat): (k: string)
    ensures |k| < PROPERTY_KEY_MAX
  {
    StrLCpy(FieldKey(f, i), PROPERTY_KEY_MAX)
  }

  predicate IsSpace(c: char) {
    c == ' ' || c == '\t' || c == '\n' || c == '\r' || c == '\U{00000B}' || c == '\U{00000C}'
  }

  /** The text starts with what "%d" accepts: white space, an optional sign, a digit. */
  predicate StartsInteger(s: string) {
    if s == "" then false
    else if IsSpace(s[0]) then StartsInteger(s[1..])
    else if s[0] == '-' || s[0] == '+' then |s| > 1 && IsDigit(s[1])
    else IsDigit(s[0])
  }

  function LeadingNumber(s: string, acc: nat): nat {
    if s == "" || !IsDigit(s[0]) then acc else LeadingNumber(s[1..], 10 * acc + DigitValue(s[0]))
  }

  /** The number "%d" reads, stored into an unsigned int. */
  function ScannedInteger(s: string): nat
    requires StartsInteger(s)
  {
    if IsSpace(s[0]) then ScannedInteger(s[1..])
    else if s[0] == '-' then (0 - LeadingNumber(s[1..], 0) as int) % 0x1_0000_0000
    else if s[0] == '+' then LeadingNumber(s[1..], 0) % 0x1_0000_0000
    else LeadingNumber(s, 0) % 0x1_0000_0000
  }

  predicate MatchMultiEntry(key: string, field: string, index: nat) {
    if index == 0 && key == field then true
    else if |key| < |field| + 2 then false
    else if !(field <= key) then false
    else if key[|field|] != '_' || !StartsInteger(key[|field| + 1..]) then false
    else ScannedInteger(key[|field| + 1..]) >= index
  }

  /** Key k belongs to the multi-entry family of field f. */
  predicate InFamily(k: string, f: string) {
    MatchMultiEntry(k, f, 0)
  }

  // ----- Operations on tables ------------------------------------------------------------------

  function MaxEntries(dsize: nat): nat
    requires dsize >= PERSIST_HEADER_SIZE
  {
    (dsize - PERSIST_HEADER_SIZE) / PERSIST_ENTRY_SIZE
  }

  /** The first of the entries 0, ..., n - 1 whose key is k. */
  function FindAmong(t: Table, k: string, n: nat): (r: Option<nat>)
    requires n <= |t|
    ensures r.Some? ==> r.value < n && t[r.value].key == k && forall j :: 0 <= j < r.value ==> t[j].key != k
    ensures r.None? ==> forall j :: 0 <= j < n ==> t[j].key != k
  {
    if n == 0 then None
    else
      var r := FindAmong(t, k, n - 1);
      if r.Some? then r else if t[n - 1].key == k then Some(n - 1) else None
  }

  function FindKey(t: Table, k: string): (r: Option<nat>)
    ensures r.Some? ==> r.value < |t| && t[r.value].key == k && forall j :: 0 <= j < r.value ==> t[j].key != k
    ensures r.None? ==> forall j :: 0 <= j < |t| ==> t[j].key != k
  {
    FindAmong(t, k, |t|)
  }

  function Lookup(t: Table, k: string): Option<string> {
    match FindKey(t, k)
    case Some(i) => Some(t[i].val)
    case None => None
  }

  function SetKey(t: Table, k: string, v: string, max: nat): Option<Table> {
    match FindKey(t, k)
    case Some(i) => Some(t[i := t[i].(val := StrLCpy(v, PROPERTY_VALUE_MAX))])
    case None =>
      if |t| < max
      then Some(t + [Entry(StrLCpy(k, PROPERTY_KEY_MAX), StrLCpy(v, PROPERTY_VALUE_MAX))])
      else None
  }

  /** The entries that do not match (f, index), in order. */
  function Remove(t: Table, f: string, index: nat): (r: Table)
    ensures |r| <= |t|
  {
    if t == [] then []
    else
      var r := Remove(t[..|t| - 1], f, index);
      if MatchMultiEntry(t[|t| - 1].key, f, index) then r else r + [t[|t| - 1]]
  }

  function CountMatching(t: Table, f: string, index: nat): nat {
    if t == [] then 0
    else
      CountMatching(t[..|t| - 1], f, index) + if MatchMultiEntry(t[|t| - 1].key, f, index) then 1 else 0
  }

  function NumEntries(v: string): (n: nat)
    ensures n >= 1 && CHUNK * (n - 1) <= |v| <= CHUNK * n
    ensures n > 1 ==> CHUNK * (n - 1) < |v|
  {
    if |v| == 0 then 1 else (|v| + (PROPERTY_VALUE_MAX - 1) - 1) / (PROPERTY_VALUE_MAX - 1)
  }

  /** The length that cryptfs_setfield takes for that of the longest key it will write. */
  function GuardLength(f: string, n: nat): nat
    requires n >= 1
  {
    |f| + if n > 1 then 1 + FloorLog10(n) else 0
  }

  /** Store chunks i, i + 1, ..., n - 1 of v, each under its key. */
  function WriteChunks(t: Table, f: string, v: string, i: nat, max: nat): Option<Table>
    requires i <= NumEntries(v)
    decreases NumEntries(v) - i
  {
    if i == NumEntries(v) then Some(t)
    else
      match SetKey(t, StoredKey(f, i), v[CHUNK * i..], max)
      case Some(t') => WriteChunks(t', f, v, i + 1, max)
      case None => None
  }

  function SetField(t: Table, f: string, v: string, max: nat): SetOutcome {
    var n := NumEntries(v);
    if GuardLength(f, n) > PROPERTY_KEY_MAX - 1 then SetOutcome(SetFieldTooLong, t)
    else if |t| + n - CountMatching(t, f, 0) > max then SetOutcome(SetValueTooLong, t)
    else
      match WriteChunks(Remove(t, f, 0), f, v, 0, max)
      case Some(t') => SetOutcome(SetOk, t')
      case None => SetOutcome(SetOther, Remove(t, f, 0))
  }

  /** No chunk index of f from here on has a key that fits. */
  function IndexLimit(f: string): nat {
    Pow10(|f| + PROPERTY_KEY_MAX)
  }

  /** The chunks i, i + 1, ... of field f joined, up to the first key that is missing or does not fit. */
  function JoinChunks(t: Table, f: string, i: nat): string
    decreases IndexLimit(f) - i
  {
    if |FieldKey(f, i)| >= PROPERTY_KEY_MAX then ""
    else
      match Lookup(t, FieldKey(f, i))
      case None => ""
      case Some(c) =>
        FittingIndexBound(f, i);
        c + JoinChunks(t, f, i + 1)
  }

  /** The whole value of a field, as cryptfs_getfield stitches it together. */
  function FieldValue(t: Table, f: string): Option<string> {
    match Lookup(t, f)
    case None => None
    case Some(c) => Some(c + JoinChunks(t, f, 1))
  }

  /** An index whose key fits is small, so the reading loop ends. */
  lemma FittingIndexBound(f: string, i: nat)
    requires |FieldKey(f, i)| < PROPERTY_KEY_MAX
    ensures i < IndexLimit(f)
  {
    NumeralBounds(i);
    if i > 0 {
      Pow10Monotone(|Numeral(i)|, |f| + PROPERTY_KEY_MAX);
    }
  }

  // ----- Families of keys ----------------------------------------------------------------------

  lemma FieldKeyInjective(f: string, i: nat, j: nat)
    requires FieldKey(f, i) == FieldKey(f, j)
    ensures i == j
  {
    if i > 0 && j > 0 {
      assert Numeral(i) == FieldKey(f, i)[|f| + 1..] == FieldKey(f, j)[|f| + 1..] == Numeral(j);
      NumeralInjective(i, j);
    }
  }

  lemma FieldKeyMonotone(f: string, i: nat, j: nat)
    requires i <= j
    ensures |FieldKey(f, i)| <= |FieldKey(f, j)|
  {
    NumeralMonotone(i, j);
  }

  lemma NumeralStartsInteger(n: nat)
    ensures StartsInteger(Numeral(n))
  {
    NumeralIsDigits(n);
    assert IsDigit(Numeral(n)[0]);
  }

  /** Appending "_..." to a text does not change whether "%d" accepts it. */
  lemma {:induction false} StartsIntegerBeforeUnderscore(z: string, rest: string)
    ensures StartsInteger(z + "_" + rest) == StartsInteger(z)
  {
    var s := z + "_" + rest;
    if z != "" && IsSpace(z[0]) {
      assert s[1..] == z[1..] + "_" + rest;
      StartsIntegerBeforeUnderscore(z[1..], rest);
    }
  }

  /** Which chunk keys of g setting f may touch: those of a g in f's family, and f itself. */
  lemma ChunkKeyInFamily(f: string, g: string, j: nat)
    ensures InFamily(FieldKey(g, j), f) <==> InFamily(g, f) || FieldKey(g, j) == f
  {
    var k := FieldKey(g, j);
    NumeralIsDigits(j);
    if j > 0 && k != f {
      if |f| > |g| {
        if f <= k && |f| < |k| {
          assert k[|f|] == Numeral(j)[|f| - |g| - 1];
        }
      } else {
        assert f <= k <==> f <= g by {
          assert k[..|f|] == g[..|f|];
        }
        if f <= g {
          if |f| == |g| {
            NumeralStartsInteger(j);
            assert k[|f| + 1..] == Numeral(j);
          } else {
            assert k[|f| + 1..] == g[|f| + 1..] + "_" + Numeral(j);
            StartsIntegerBeforeUnderscore(g[|f| + 1..], Numeral(j));
          }
        }
      }
    }
  }

  /** Every chunk key of f is in f's family. */
  lemma OwnChunkKeyInFamily(f: string, i: nat)
    ensures InFamily(FieldKey(f, i), f)
  {
    ChunkKeyInFamily(f, f, i);
  }

  // ----- Removing and counting -----------------------------------------------------------------

  ghost predicate UniqueKeys(t: Table) {
    forall i, j :: 0 <= i < j < |t| ==> t[i].key != t[j].key
  }

  /** Every key and value fits its fixed-size array. */
  ghost predicate WellFormed(t: Table) {
    forall i :: 0 <= i < |t| ==> |t[i].key| < PROPERTY_KEY_MAX && |t[i].val| < PROPERTY_VALUE_MAX
  }

  /** The table fits its region.  A table read from a device may hold a key more than once. */
  ghost predicate Good(t: Table, max: nat) {
    |t| <= max && WellFormed(t)
  }

  lemma {:induction false} RemoveCount(t: Table, f: string, index: nat)
    ensures |Remove(t, f, index)| == |t| - CountMatching(t, f, index)
  {
    if t != [] {
      RemoveCount(t[..|t| - 1], f, index);
    }
  }

  lemma RemoveStep(t: Table, f: string, index: nat, i: nat)
    requires i < |t|
    ensures Remove(t[..i + 1], f, index)
         == Remove(t[..i], f, index) + if MatchMultiEntry(t[i].key, f, index) then [] else [t[i]]
  {
    assert t[..i + 1][..i] == t[..i];
  }

  lemma {:induction false} RemoveNothing(t: Table, f: string, index: nat)
    requires |Remove(t, f, index)| == |t|
    ensures Remove(t, f, index) == t
  {
    if t != [] {
      RemoveNothing(t[..|t| - 1], f, index);
    }
  }

  lemma {:induction false} RemoveElements(t: Table, f: string, index: nat)
    ensures forall e :: e in Remove(t, f, index) <==> e in t && !MatchMultiEntry(e.key, f, index)
  {
    if t != [] {
      RemoveElements(t[..|t| - 1], f, index);
      assert t == t[..|t| - 1] + [t[|t| - 1]];
    }
  }

  lemma RemoveGood(t: Table, f: string, index: nat, max: nat)
    requires Good(t, max)
    ensures Good(Remove(t, f, index), max)
  {
    hide MatchMultiEntry, Remove;
    RemoveElements(t, f, index);
    var r := Remove(t, f, index);
    assert forall i :: 0 <= i < |r| ==> r[i] in t;
  }

  lemma {:induction false} RemoveKeepsUnique(t: Table, f: string, index: nat)
    requires UniqueKeys(t)
    ensures UniqueKeys(Remove(t, f, index))
  {
    hide MatchMultiEntry;
    if t != [] {
      var t0, r := t[..|t| - 1], Remove(t[..|t| - 1], f, index);
      RemoveKeepsUnique(t0, f, index);
      RemoveElements(t0, f, index);
      assert forall i :: 0 <= i < |r| ==> r[i] in t0;
    }
  }

  /** The first match of a longer table is that of the shorter one, if there is one. */
  lemma LookupAppend(t: Table, e: Entry, k: string)
    ensures Lookup(t + [e], k)
         == if Lookup(t, k).Some? then Lookup(t, k) else if e.key == k then Some(e.val) else None
  {
    var r, r' := FindKey(t, k), FindKey(t + [e], k);
    assert forall j :: 0 <= j < |t| ==> (t + [e])[j] == t[j];
    assert (t + [e])[|t|] == e;
  }

  lemma {:induction false} LookupAfterRemove(t: Table, f: string, index: nat, k: string)
    ensures Lookup(Remove(t, f, index), k) == if MatchMultiEntry(k, f, index) then None else Lookup(t, k)
  {
    if t != [] {
      hide MatchMultiEntry, Lookup;
      var t0, e := t[..|t| - 1], t[|t| - 1];
      assert t == t0 + [e];
      LookupAfterRemove(t0, f, index, k);
      LookupAppend(t0, e, k);
      LookupAppend(Remove(t0, f, index), e, k);
    }
  }

  // ----- Setting a field -----------------------------------------------------------------------

  lemma SetKeyGood(t: Table, k: string, v: string, max: nat)
    requires Good(t, max) && |k| < PROPERTY_KEY_MAX
    ensures SetKey(t, k, v, max).Some? ==> Good(SetKey(t, k, v, max).value, max)
    ensures SetKey(t, k, v, max).Some? && UniqueKeys(t) ==> UniqueKeys(SetKey(t, k, v, max).value)
    ensures |t| < max ==> SetKey(t, k, v, max).Some? && |SetKey(t, k, v, max).value| <= |t| + 1
  {
  }

  lemma WriteChunksStep(t: Table, f: string, v: string, i: nat, max: nat)
    requires i <= NumEntries(v)
    ensures i == NumEntries(v) ==> WriteChunks(t, f, v, i, max) == Some(t)
    ensures i < NumEntries(v) ==>
        var r := SetKey(t, StoredKey(f, i), v[CHUNK * i..], max);
        WriteChunks(t, f, v, i, max) == if r.Some? then WriteChunks(r.value, f, v, i + 1, max) else None
  {
  }

  lemma {:induction false} WriteChunksSucceeds(t: Table, f: string, v: string, i: nat, max: nat)
    requires Good(t, max) && i <= NumEntries(v) && |t| + NumEntries(v) - i <= max
    ensures WriteChunks(t, f, v, i, max).Some? && Good(WriteChunks(t, f, v, i, max).value, max)
    ensures UniqueKeys(t) ==> UniqueKeys(WriteChunks(t, f, v, i, max).value)
    decreases NumEntries(v) - i
  {
    hide WriteChunks, SetKey, StoredKey, Good, UniqueKeys;
    WriteChunksStep(t, f, v, i, max);
    if i < NumEntries(v) {
      var k := StoredKey(f, i);
      SetKeyGood(t, k, v[CHUNK * i..], max);
      WriteChunksSucceeds(SetKey(t, k, v[CHUNK * i..], max).value, f, v, i + 1, max);
    }
  }

  /**
   The two guards decide the outcome: once they pass, no store of an entry can fail, and the table keeps
   within its capacity and its keys unique, if they were.  Any other outcome leaves the table alone.
   */
  lemma SetFieldOutcome(t: Table, f: string, v: string, max: nat)
    requires Good(t, max)
    ensures var r := SetField(t, f, v, max);
      && Good(r.table, max)
      && (UniqueKeys(t) ==> UniqueKeys(r.table))
      && r.rc != SetOther
      && (r.rc == SetFieldTooLong <==> GuardLength(f, NumEntries(v)) >= PROPERTY_KEY_MAX)
      && (r.rc != SetOk ==> r.table == t)
      && (r.rc == SetOk <==> (GuardLength(f, NumEntries(v)) < PROPERTY_KEY_MAX
                              && |Remove(t, f, 0)| + NumEntries(v) <= max))
  {
    RemoveCount(t, f, 0);
    RemoveGood(t, f, 0, max);
    if UniqueKeys(t) {
      RemoveKeepsUnique(t, f, 0);
    }
    if SetField(t, f, v, max).rc != SetFieldTooLong && |Remove(t, f, 0)| + NumEntries(v) <= max {
      WriteChunksSucceeds(Remove(t, f, 0), f, v, 0, max);
    }
  }

  /** The longest key that storing v in f generates fits a key array. */
  predicate KeysFit(f: string, v: string) {
    |FieldKey(f, NumEntries(v) - 1)| < PROPERTY_KEY_MAX
  }

  /**
   The name-length guard is one short: it lets through names whose last chunk key does not fit, exactly
   those that meet the limit with a chunk count above 1 that is not a power of ten.
   */
  lemma GuardMissesLongKeys(f: string, v: string)
    ensures var n := NumEntries(v);
      GuardLength(f, n) < PROPERTY_KEY_MAX && !KeysFit(f, v)
      <==> n > 1 && GuardLength(f, n) == PROPERTY_KEY_MAX - 1 && !IsPowerOfTen(n)
  {
    var n := NumEntries(v);
    if n > 1 {
      NumeralBounds(n);
      NumeralMonotone(n - 1, n);
      DigitGainIffPowerOfTen(n);
    }
  }

  function Chunk(v: string, i: nat): string
    requires i < NumEntries(v)
  {
    StrLCpy(v[CHUNK * i..], PROPERTY_VALUE_MAX)
  }

  function StoredChunk(v: string, i: nat): Option<string> {
    if i < NumEntries(v) then Some(Chunk(v, i)) else None
  }

  /** The last of the chunks i, ..., n - 1 of f that is stored under key k. */
  function LastStoredAmong(f: string, k: string, i: nat, n: nat): (r: Option<nat>)
    requires i <= n
    ensures r.Some? ==> i <= r.value < n && StoredKey(f, r.value) == k
    ensures r.Some? ==> forall j :: r.value < j < n ==> StoredKey(f, j) != k
    ensures r.None? ==> forall j :: i <= j < n ==> StoredKey(f, j) != k
    decreases n - i
  {
    hide StoredKey;
    if i == n then None
    else
      var r := LastStoredAmong(f, k, i + 1, n);
      if r.Some? then r else if StoredKey(f, i) == k then Some(i) else None
  }

  /** Likewise of all chunks of v from i on. */
  function LastStoredFrom(f: string, v: string, k: string, i: nat): (r: Option<nat>)
    requires i <= NumEntries(v)
    ensures r.Some? ==> i <= r.value < NumEntries(v) && StoredKey(f, r.value) == k
    ensures r.None? ==> forall j :: i <= j < NumEntries(v) ==> StoredKey(f, j) != k
  {
    LastStoredAmong(f, k, i, NumEntries(v))
  }

  lemma SetKeyLookup(t: Table, k: string, v: string, max: nat, other: string)
    requires |k| < PROPERTY_KEY_MAX && SetKey(t, k, v, max).Some?
    ensures Lookup(SetKey(t, k, v, max).value, other)
         == if other == k then Some(StrLCpy(v, PROPERTY_VALUE_MAX)) else Lookup(t, other)
  {
    var t' := SetKey(t, k, v, max).value;
    var r, r' := FindKey(t, other), FindKey(t', other);
    assert forall j :: 0 <= j < |t| ==> t'[j].key == t[j].key;
    if other != k && r.Some? {
      assert t'[r.value] == t[r.value];
    }
  }

  lemma {:induction false} WriteChunksLookup(t: Table, f: string, v: string, i: nat, max: nat, k: string)
    requires i <= NumEntries(v) && WriteChunks(t, f, v, i, max).Some?
    ensures Lookup(WriteChunks(t, f, v, i, max).value, k)
         == match LastStoredFrom(f, v, k, i)
            case Some(j) => Some(Chunk(v, j))
            case None => Lookup(t, k)
    decreases NumEntries(v) - i
  {
    hide FieldKey, SetKey, WriteChunks, Lookup;
    WriteChunksStep(t, f, v, i, max);
    if i < NumEntries(v) {
      SetKeyLookup(t, StoredKey(f, i), v[CHUNK * i..], max, k);
      WriteChunksLookup(SetKey(t, StoredKey(f, i), v[CHUNK * i..], max).value, f, v, i + 1, max, k);
    }
  }

  /**
   The effect of a successful set on every key, whether the chunk keys fit or are cut: a key holds the last
   chunk stored under it; of the other keys those in f's family are gone and the rest are as before.
   */
  lemma SetFieldLookup(t: Table, f: string, v: string, max: nat, k: string)
    requires Good(t, max) && SetField(t, f, v, max).rc == SetOk
    ensures Lookup(SetField(t, f, v, max).table, k)
         == match LastStoredFrom(f, v, k, 0)
            case Some(j) => Some(Chunk(v, j))
            case None => if InFamily(k, f) then None else Lookup(t, k)
  {
    WriteChunksLookup(Remove(t, f, 0), f, v, 0, max, k);
    LookupAfterRemove(t, f, 0, k);
  }

  /** After a set whose keys fit, chunk i of the field holds chunk i of v, and there is no further chunk. */
  lemma SetFieldOwnChunk(t: Table, f: string, v: string, max: nat, i: nat)
    requires Good(t, max) && SetField(t, f, v, max).rc == SetOk && KeysFit(f, v)
    ensures Lookup(SetField(t, f, v, max).table, FieldKey(f, i)) == StoredChunk(v, i)
  {
    hide FieldKey, SetField, InFamily, Lookup;
    var r := LastStoredFrom(f, v, FieldKey(f, i), 0);
    SetFieldLookup(t, f, v, max, FieldKey(f, i));
    OwnChunkKeyInFamily(f, i);
    if i < NumEntries(v) {
      FieldKeyMonotone(f, i, NumEntries(v) - 1);
      assert StoredKey(f, i) == FieldKey(f, i);
    }
    if r.Some? {
      FieldKeyMonotone(f, r.value, NumEntries(v) - 1);
      FieldKeyInjective(f, i, r.value);
    }
  }

  // ----- Round trip ----------------------------------------------------------------------------

  function Rest(v: string, i: nat): string {
    if i < NumEntries(v) then v[CHUNK * i..] else ""
  }

  lemma RestSplits(v: string, i: nat)
    requires i < NumEntries(v)
    ensures Rest(v, i) == Chunk(v, i) + Rest(v, i + 1)
  {
    var s := v[CHUNK * i..];
    if |s| < PROPERTY_VALUE_MAX {
      assert Rest(v, i + 1) == "";
    } else {
      assert s == s[..CHUNK] + s[CHUNK..];
      assert s[CHUNK..] == v[CHUNK * (i + 1)..];
    }
  }

  /** The chunk keys of f hold exactly the chunks of v, which then join back into v. */
  ghost predicate Stores(t: Table, f: string, v: string) {
    forall j: nat :: Lookup(t, FieldKey(f, j)) == StoredChunk(v, j)
  }

  lemma JoinStep(t: Table, f: string, i: nat)
    ensures JoinChunks(t, f, i)
         == if |FieldKey(f, i)| < PROPERTY_KEY_MAX && Lookup(t, FieldKey(f, i)).Some?
            then Lookup(t, FieldKey(f, i)).value + JoinChunks(t, f, i + 1)
            else ""
  {
  }

  lemma {:induction false} JoinStored(t: Table, f: string, v: string, i: nat)
    requires i <= NumEntries(v) && KeysFit(f, v) && Stores(t, f, v)
    ensures JoinChunks(t, f, i) == Rest(v, i)
    decreases NumEntries(v) - i
  {
    hide FieldKey, JoinChunks, Lookup;
    JoinStep(t, f, i);
    assert Lookup(t, FieldKey(f, i)) == StoredChunk(v, i);
    if i < NumEntries(v) {
      FieldKeyMonotone(f, i, NumEntries(v) - 1);
      JoinStored(t, f, v, i + 1);
      RestSplits(v, i);
    }
  }

  lemma LookupWellFormed(t: Table, k: string)
    requires WellFormed(t) && Lookup(t, k).Some?
    ensures |Lookup(t, k).value| <= CHUNK
  {
  }

  /** Keys that do not fit stop the reader, so at most the chunks before index last are ever joined. */
  lemma {:induction false} JoinLength(t: Table, f: string, i: nat, last: nat)
    requires WellFormed(t) && i <= last && |FieldKey(f, last)| >= PROPERTY_KEY_MAX
    ensures |JoinChunks(t, f, i)| <= CHUNK * (last - i)
    decreases last - i
  {
    hide FieldKey, JoinChunks, Lookup;
    JoinStep(t, f, i);
    var k := FieldKey(f, i);
    if |k| < PROPERTY_KEY_MAX && Lookup(t, k).Some? {
      LookupWellFormed(t, k);
      JoinLength(t, f, i + 1, last);
    }
  }

  /**
   The round trip, exactly: after a successful set, the field reads back as v if and only if its longest
   chunk key fits.
   */
  lemma SetThenGet(t: Table, f: string, v: string, max: nat)
    requires Good(t, max) && SetField(t, f, v, max).rc == SetOk
    ensures FieldValue(SetField(t, f, v, max).table, f) == Some(v) <==> KeysFit(f, v)
  {
    var t' := SetField(t, f, v, max).table;
    SetFieldOutcome(t, f, v, max);
    assert FieldKey(f, 0) == f;
    if KeysFit(f, v) {
      forall j: nat
        ensures Lookup(t', FieldKey(f, j)) == StoredChunk(v, j)
      {
        SetFieldOwnChunk(t, f, v, max, j);
      }
      JoinStored(t', f, v, 0);
      FieldKeyMonotone(f, 0, NumEntries(v) - 1);
      assert v[CHUNK * 0..] == v;
    } else {
      JoinedTooShort(t', f, v);
    }
  }

  lemma JoinedTooShort(t: Table, f: string, v: string)
    requires WellFormed(t) && NumEntries(v) > 1 && !KeysFit(f, v)
    ensures FieldValue(t, f) != Some(v)
  {
    hide FieldKey, JoinChunks, Lookup;
    var last := NumEntries(v) - 1;
    JoinLength(t, f, 1, last);
    if Lookup(t, f).Some? {
      LookupWellFormed(t, f);
    }
  }

  // ----- Independence --------------------------------------------------------------------------

  /** Neither field's storage reaches into the other's: g is not in f's family and f is no chunk key of g. */
  ghost predicate Unrelated(f: string, g: string) {
    !InFamily(g, f) && forall j: nat :: FieldKey(g, j) != f
  }

  /** If neither name is in the family of the other, the two fields are unrelated. */
  lemma OutsideFamiliesUnrelated(f: string, g: string)
    requires !InFamily(g, f) && !InFamily(f, g)
    ensures Unrelated(f, g)
  {
    forall j: nat
      ensures FieldKey(g, j) != f
    {
      OwnChunkKeyInFamily(g, j);
    }
  }

  /** A chunk key of f is cut to f and an underscore, which is the name g. */
  predicate HitByCutKey(f: string, v: string, g: string) {
    !KeysFit(f, v) && |f| == PROPERTY_KEY_MAX - 2 && g == f + "_"
  }

  /** No cut key of f hits g, or the chunk it brings is what g reads as anyway. */
  predicate CutKeyHarmless(t: Table, f: string, v: string, g: string) {
    !HitByCutKey(f, v, g) || FieldValue(t, g) == Some(Chunk(v, NumEntries(v) - 1))
  }

  /** Past the length guard a key is cut by at most one digit, which leaves f's family only if it was the last. */
  lemma StoredKeyLands(f: string, v: string, i: nat)
    requires GuardLength(f, NumEntries(v)) < PROPERTY_KEY_MAX && i < NumEntries(v)
    ensures InFamily(StoredKey(f, i), f) || HitByCutKey(f, v, StoredKey(f, i))
  {
    hide InFamily;
    var n := NumEntries(v);
    OwnChunkKeyInFamily(f, i);
    if |FieldKey(f, i)| >= PROPERTY_KEY_MAX {
      NumeralBounds(n);
      NumeralMonotone(i, n);
      FieldKeyMonotone(f, i, n - 1);
      if i < 10 {
        assert StoredKey(f, i) == f + "_";
      } else {
        OwnChunkKeyInFamily(f, i / 10);
        assert StoredKey(f, i) == FieldKey(f, i / 10);
      }
    }
  }

  /** No chunk key of an unrelated field is stored under, except a name hit by a cut key. */
  lemma UnrelatedKeyFree(f: string, v: string, g: string, j: nat)
    requires GuardLength(f, NumEntries(v)) < PROPERTY_KEY_MAX && Unrelated(f, g)
    requires j > 0 || !HitByCutKey(f, v, g)
    ensures !InFamily(FieldKey(g, j), f)
    ensures LastStoredFrom(f, v, FieldKey(g, j), 0) == None
  {
    hide InFamily;
    var k := FieldKey(g, j);
    ChunkKeyInFamily(f, g, j);
    NumeralIsDigits(j);
    assert j > 0 ==> k[|k| - 1] == Numeral(j)[|Numeral(j)| - 1];
    var r := LastStoredFrom(f, v, k, 0);
    if r.Some? {
      StoredKeyLands(f, v, r.value);
    }
  }

  lemma {:induction false} JoinUnaffected(t: Table, f: string, v: string, max: nat, g: string, i: nat)
    requires Good(t, max) && SetField(t, f, v, max).rc == SetOk && Unrelated(f, g)
    requires i > 0 || !HitByCutKey(f, v, g)
    ensures JoinChunks(SetField(t, f, v, max).table, g, i) == JoinChunks(t, g, i)
    decreases IndexLimit(g) - i
  {
    hide FieldKey, JoinChunks, Lookup, InFamily, KeysFit, Remove, WriteChunks;
    UnrelatedKeyFree(f, v, g, i);
    SetFieldLookup(t, f, v, max, FieldKey(g, i));
    JoinStep(t, g, i);
    JoinStep(SetField(t, f, v, max).table, g, i);
    if |FieldKey(g, i)| < PROPERTY_KEY_MAX {
      FittingIndexBound(g, i);
      JoinUnaffected(t, f, v, max, g, i + 1);
    }
  }

  /** A name hit by a cut key ends up with the last chunk as its value. */
  lemma CutKeyValue(t: Table, f: string, v: string, max: nat, g: string)
    requires Good(t, max) && SetField(t, f, v, max).rc == SetOk && HitByCutKey(f, v, g)
    ensures FieldValue(SetField(t, f, v, max).table, g) == Some(Chunk(v, NumEntries(v) - 1))
  {
    hide Lookup, SetField;
    var last, t' := NumEntries(v) - 1, SetField(t, f, v, max).table;
    SetFieldOutcome(t, f, v, max);
    NumeralBounds(last + 1);
    NumeralMonotone(last, last + 1);
    assert StoredKey(f, last) == g;
    assert LastStoredFrom(f, v, g, 0) == Some(last);
    SetFieldLookup(t, f, v, max, g);
    JoinStep(t', g, 1);
    assert Chunk(v, last) + "" == Chunk(v, last);
  }

  /**
   Setting f leaves what an unrelated field reads as unchanged, if and only if the field is not the one that a
   cut key of f hits, or read as that very chunk before.
   */
  lemma SetKeepsOtherFields(t: Table, f: string, v: string, max: nat, g: string)
    requires Good(t, max) && Unrelated(f, g) && SetField(t, f, v, max).rc == SetOk
    ensures FieldValue(SetField(t, f, v, max).table, g) == FieldValue(t, g)
       <==> CutKeyHarmless(t, f, v, g)
  {
    hide InFamily, Lookup, JoinChunks, SetField, Chunk;
    SetFieldOutcome(t, f, v, max);
    if HitByCutKey(f, v, g) {
      CutKeyValue(t, f, v, max, g);
    } else {
      UnrelatedKeyFree(f, v, g, 0);
      SetFieldLookup(t, f, v, max, g);
      JoinUnaffected(t, f, v, max, g, 1);
    }
  }

  /** Setting f wipes out a field g whose name lies in f's family, if and only if it does not store under that name. */
  lemma SetErasesFamilyMembers(t: Table, f: string, v: string, max: nat, g: string)
    requires Good(t, max) && SetField(t, f, v, max).rc == SetOk
    requires InFamily(g, f)
    ensures FieldValue(SetField(t, f, v, max).table, g) == None
       <==> forall i: nat :: i < NumEntries(v) ==> g != StoredKey(f, i)
  {
    SetFieldLookup(t, f, v, max, g);
  }

  // ----- Size of a field -----------------------------------------------------------------------

  lemma {:induction false} DistinctPositions(s: seq<nat>, n: nat)
    requires forall i :: 0 <= i < |s| ==> s[i] < n
    requires forall i, j :: 0 <= i < j < |s| ==> s[i] != s[j]
    ensures |s| <= n
  {
    assert s != [] ==> s[0] < n;
    if s != [] {
      if p :| 0 <= p < |s| && s[p] == n - 1 {
        DistinctPositions(s[..p] + s[p + 1..], n - 1);
      } else {
        DistinctPositions(s, n - 1);
      }
    }
  }

  /** Position at[j] of the table holds chunk j of field f. */
  ghost predicate HoldChunks(t: Table, f: string, at: seq<nat>) {
    forall j :: 0 <= j < |at| ==> at[j] < |t| && t[at[j]].key == FieldKey(f, j)
  }

  lemma ChunksTakeRoom(t: Table, f: string, at: seq<nat>)
    requires HoldChunks(t, f, at)
    ensures |at| <= |t|
  {
    forall i, j | 0 <= i < j < |at|
      ensures at[i] != at[j]
    {
      if at[i] == at[j] {
        FieldKeyInjective(f, i, j);
      }
    }
    DistinctPositions(at, |t|);
  }

  /** The chunks read so far sit in distinct entries, so only the other entries can feed the rest. */
  lemma {:induction false} JoinWithinEntries(t: Table, f: string, at: seq<nat>)
    requires WellFormed(t) && HoldChunks(t, f, at)
    ensures |at| <= |t| && |JoinChunks(t, f, |at|)| <= CHUNK * (|t| - |at|)
    decreases IndexLimit(f) - |at|
  {
    hide FieldKey, JoinChunks, IndexLimit;
    ChunksTakeRoom(t, f, at);
    var k := FieldKey(f, |at|);
    JoinStep(t, f, |at|);
    if |k| < PROPERTY_KEY_MAX && Lookup(t, k).Some? {
      LookupWellFormed(t, k);
      FittingIndexBound(f, |at|);
      JoinWithinEntries(t, f, at + [FindKey(t, k).value]);
    }
  }

  /** Whatever the table holds, a field's value is no longer than all its slots together. */
  lemma FieldValueBound(t: Table, f: string)
    requires WellFormed(t) && FieldValue(t, f).Some?
    ensures |FieldValue(t, f).value| <= CHUNK * |t|
  {
    var x := FindKey(t, f).value;
    assert t[x].key == FieldKey(f, 0);
    LookupWellFormed(t, f);
    JoinWithinEntries(t, f, [x]);
  }

  // ----- Runs of sets --------------------------------------------------------------------------

  datatype Call = Call(field: string, value: string)

  function RunSets(t: Table, calls: seq<Call>, max: nat): Table {
    if calls == [] then t
    else
      var last := calls[|calls| - 1];
      SetField(RunSets(t, calls[..|calls| - 1], max), last.field, last.value, max).table
  }

  /** What a call did to field g: its own write, or a chunk of another field brought in by a cut key. */
  datatype Effect = Own(value: string) | Cut(chunk: string)

  /** The effect on g of the last successful call that had one. */
  function LastEffect(t: Table, calls: seq<Call>, max: nat, g: string): Option<Effect> {
    if calls == [] then None
    else
      var last, before := calls[|calls| - 1], calls[..|calls| - 1];
      if SetField(RunSets(t, before, max), last.field, last.value, max).rc != SetOk
      then LastEffect(t, before, max, g)
      else if last.field == g then Some(Own(last.value))
      else if HitByCutKey(last.field, last.value, g) then Some(Cut(Chunk(last.value, NumEntries(last.value) - 1)))
      else LastEffect(t, before, max, g)
  }

  /**
   Over any run of sets on g and on unrelated fields, the last one with an effect on g decides what g reads
   as: the value written, if and only if its keys fit, or the chunk of another field whose cut key hit g.
   Without any, g reads as in the beginning.
   */
  lemma {:induction false} LastWriteWins(t: Table, calls: seq<Call>, max: nat, g: string)
    requires Good(t, max)
    requires forall c :: c in calls ==> c.field == g || Unrelated(c.field, g)
    ensures Good(RunSets(t, calls, max), max)
    ensures match LastEffect(t, calls, max, g)
            case None => FieldValue(RunSets(t, calls, max), g) == FieldValue(t, g)
            case Some(Own(w)) => FieldValue(RunSets(t, calls, max), g) == Some(w) <==> KeysFit(g, w)
            case Some(Cut(chunk)) => FieldValue(RunSets(t, calls, max), g) == Some(chunk)
  {
    hide SetField, FieldValue, KeysFit, HitByCutKey, Chunk;
    if calls != [] {
      var last, before := calls[|calls| - 1], calls[..|calls| - 1];
      assert last in calls;
      LastWriteWins(t, before, max, g);
      var t0 := RunSets(t, before, max);
      SetFieldOutcome(t0, last.field, last.value, max);
      if SetField(t0, last.field, last.value, max).rc == SetOk {
        if last.field == g {
          SetThenGet(t0, g, last.value, max);
        } else if HitByCutKey(last.field, last.value, g) {
          CutKeyValue(t0, last.field, last.value, max, g);
        } else {
          SetKeepsOtherFields(t0, last.field, last.value, max, g);
        }
      }
    }
  }

  /** A 30-character name and a 92-character value: the set reports success and the value is lost. */
  lemma LongNameLosesValue(f: string, v: string)
    requires |f| == 30 && |v| == 92
    ensures SetField([], f, v, MaxEntries(CRYPT_PERSIST_DATA_SIZE)).rc == SetOk
    ensures FieldValue(SetField([], f, v, MaxEntries(CRYPT_PERSIST_DATA_SIZE)).table, f) != Some(v)
  {
    var max := MaxEntries(CRYPT_PERSIST_DATA_SIZE);
    assert NumEntries(v) == 2;
    SetFieldOutcome([], f, v, max);
    assert !KeysFit(f, v);
    SetThenGet([], f, v, max);
  }

  /** And its second chunk, stored under a key cut short, shows up as the value of an unrelated field. */
  lemma CutKeyHitsOtherField(f: string, v: string)
    requires |f| == 30 && |v| == 92
    ensures var g := f + "_";
      && Unrelated(f, g)
      && FieldValue([], g) == None
      && FieldValue(SetField([], f, v, MaxEntries(CRYPT_PERSIST_DATA_SIZE)).table, g).Some?
  {
    var g, max := f + "_", MaxEntries(CRYPT_PERSIST_DATA_SIZE);
    assert !InFamily(g, f) by {
      assert g[|f| + 1..] == "";
    }
    forall j: nat
      ensures FieldKey(g, j) != f
    {
      assert |FieldKey(g, j)| > |f|;
    }
    assert NumEntries(v) == 2;
    SetFieldOutcome([], f, v, max);
    CutKeyValue([], f, v, max, g);
  }
}
