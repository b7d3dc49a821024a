/**
 What the keys of the field table look like, in characters: which keys belong to the family of a field, and
 which neighbours a set therefore leaves alone.  And how much a fresh table takes.
 */
module FieldLaws {
  import opened Common
  import opened Decimal
  import opened FieldTable

  // ----- Families in characters ----------------------------------------------------------------

  predicate Blanks(s: string) {
    forall i :: 0 <= i < |s| ==> s[i] in {' ', '\t', '\n', '\r', '\U{00000B}', '\U{00000C}'}
  }

  /** White space, then at most one sign, then a digit, then anything. */
  predicate IndexPieces(rest: string, space: string, sign: string, digit: char, more: string) {
    && rest == space + sign + [digit] + more
    && Blanks(space) && sign in {"", "+", "-"} && digit in "0123456789"
  }

  ghost predicate LooksLikeIndex(rest: string) {
    exists space, sign, digit, more :: IndexPieces(rest, space, sign, digit, more)
  }

  lemma DigitAlphabet(c: char)
    ensures IsDigit(c) <==> c in "0123456789"
  {
    if IsDigit(c) {
      assert c == "0123456789"[DigitValue(c)];
    }
  }

  lemma {:induction false} StartsIntegerIff(rest: string)
    ensures StartsInteger(rest) <==> LooksLikeIndex(rest)
  {
    if StartsInteger(rest) {
      IndexFound(rest);
    }
    if LooksLikeIndex(rest) {
      var space, sign, digit, more :| IndexPieces(rest, space, sign, digit, more);
      IndexStarts(rest, space, sign, digit, more);
    }
  }

  lemma {:induction false} IndexFound(rest: string)
    requires StartsInteger(rest)
    ensures LooksLikeIndex(rest)
  {
    if IsSpace(rest[0]) {
      IndexFound(rest[1..]);
      var space, sign, digit, more :| IndexPieces(rest[1..], space, sign, digit, more);
      BlankInFront(rest, space, sign, digit, more);
    } else if rest[0] == '-' || rest[0] == '+' {
      DigitAlphabet(rest[1]);
      assert rest == "" + [rest[0]] + [rest[1]] + rest[2..];
      assert IndexPieces(rest, "", [rest[0]], rest[1], rest[2..]);
    } else {
      DigitAlphabet(rest[0]);
      assert rest == "" + "" + [rest[0]] + rest[1..];
      assert IndexPieces(rest, "", "", rest[0], rest[1..]);
    }
  }

  lemma BlankInFront(rest: string, space: string, sign: string, digit: char, more: string)
    requires rest != "" && IsSpace(rest[0]) && IndexPieces(rest[1..], space, sign, digit, more)
    ensures IndexPieces(rest, [rest[0]] + space, sign, digit, more)
  {
    assert rest == ([rest[0]] + space) + sign + [digit] + more;
  }

  lemma {:induction false} IndexStarts(rest: string, space: string, sign: string, digit: char, more: string)
    requires IndexPieces(rest, space, sign, digit, more)
    ensures StartsInteger(rest)
  {
    DigitAlphabet(digit);
    if space != "" {
      assert rest[1..] == space[1..] + sign + [digit] + more;
      IndexStarts(rest[1..], space[1..], sign, digit, more);
    } else if sign != "" {
      assert rest[0] == sign[0] && rest[1] == digit;
    } else {
      assert rest[0] == digit;
    }
  }

  /** A key is in the family of f if and only if it is f, or f, an underscore and the start of a number. */
  lemma InFamilyIff(k: string, f: string)
    ensures InFamily(k, f) <==> k == f || (f + "_" <= k && LooksLikeIndex(k[|f| + 1..]))
  {
    hide StartsInteger, LooksLikeIndex;
    PrefixIff(k, f);
    if f + "_" <= k {
      StartsIntegerIff(k[|f| + 1..]);
      IndexHead(k[|f| + 1..]);
    }
  }

  lemma PrefixIff(k: string, f: string)
    ensures f + "_" <= k <==> |k| > |f| && f <= k && k[|f|] == '_'
  {
    if |k| > |f| && f <= k && k[|f|] == '_' {
      assert k[..|f| + 1] == f + "_";
    }
    if f + "_" <= k {
      assert k[..|f|] == (f + "_")[..|f|] && k[|f|] == (f + "_")[|f|];
    }
  }

  /** What the start of a number can start with. */
  lemma IndexHead(rest: string)
    ensures LooksLikeIndex(rest) ==>
      && rest != ""
      && (rest[0] in {' ', '\t', '\n', '\r', '\U{00000B}', '\U{00000C}', '+', '-'} || rest[0] in "0123456789")
  {
    if LooksLikeIndex(rest) {
      var space, sign, digit, more :| IndexPieces(rest, space, sign, digit, more);
      assert rest[0] == if space != "" then space[0] else if sign != "" then sign[0] else digit;
    }
  }

  /**
   A field whose name is that of f, an underscore and something that does not start like a number reads as
   before after f has been set, unless a cut key of f hits it.
   */
  lemma NamedNeighbourKept(t: Table, f: string, v: string, max: nat, rest: string)
    requires Good(t, max) && SetField(t, f, v, max).rc == SetOk && !LooksLikeIndex(rest)
    ensures var g := f + "_" + rest;
      FieldValue(SetField(t, f, v, max).table, g) == FieldValue(t, g) <==> CutKeyHarmless(t, f, v, g)
  {
    hide SetField, FieldValue, InFamily, FieldKey, CutKeyHarmless, LooksLikeIndex;
    var g := f + "_" + rest;
    InFamilyIff(g, f);
    assert g[|f| + 1..] == rest;
    LongerName(f, g);
    SetKeepsOtherFields(t, f, v, max, g);
  }

  lemma LongerName(f: string, g: string)
    requires |g| > |f|
    ensures forall j: nat :: FieldKey(g, j) != f
  {
    forall j: nat
      ensures FieldKey(g, j) != f
    {
      assert |FieldKey(g, j)| >= |g|;
    }
  }

  /** For instance "user_name" next to "user", while the chunk "user_1" goes. */
  lemma UserNameKept(t: Table, v: string, max: nat)
    requires Good(t, max) && SetField(t, "user", v, max).rc == SetOk && |v| < PROPERTY_VALUE_MAX
    ensures FieldValue(SetField(t, "user", v, max).table, "user_name") == FieldValue(t, "user_name")
    ensures Lookup(SetField(t, "user", v, max).table, "user_1") == None
  {
    hide SetField, FieldValue, InFamily, LooksLikeIndex, Lookup;
    IndexHead("name");
    assert "user" + "_" + "name" == "user_name";
    NamedNeighbourKept(t, "user", v, max, "name");
    DigitIsIndex('1');
    InFamilyIff("user_1", "user");
    SetFieldLookup(t, "user", v, max, "user_1");
    assert StoredKey("user", 0) == "user";
  }

  lemma DigitIsIndex(c: char)
    requires c in "0123456789"
    ensures LooksLikeIndex([c])
  {
    assert [c] == "" + "" + [c] + "";
    assert IndexPieces([c], "", "", c, "");
  }

  // ----- Indices -------------------------------------------------------------------------------

  lemma {:induction false} LeadingNumberAppend(s: string, c: char, acc: nat)
    requires IsDigit(c) && forall i :: 0 <= i < |s| ==> IsDigit(s[i])
    ensures LeadingNumber(s + [c], acc) == 10 * LeadingNumber(s, acc) + DigitValue(c)
  {
    if s != "" {
      assert (s + [c])[1..] == s[1..] + [c];
      LeadingNumberAppend(s[1..], c, 10 * acc + DigitValue(s[0]));
    } else {
      assert [c][1..] == "";
    }
  }

  /** "%d" reads back what "%d" has printed. */
  lemma {:induction false} NumeralReads(n: nat)
    ensures LeadingNumber(Numeral(n), 0) == n
  {
    NumeralIsDigits(n);
    if n >= 10 {
      NumeralReads(n / 10);
      NumeralIsDigits(n / 10);
      LeadingNumberAppend(Numeral(n / 10), DigitChar(n % 10), 0);
    } else {
      assert [DigitChar(n)][1..] == "";
    }
  }

  /** Matching from an index on takes exactly the chunks from that one on. */
  lemma MatchesFromIndex(f: string, j: nat, index: nat)
    requires j < 0x1_0000_0000
    ensures MatchMultiEntry(FieldKey(f, j), f, index) <==> j >= index
  {
    if j > 0 {
      var k := FieldKey(f, j);
      NumeralIsDigits(j);
      NumeralReads(j);
      assert IsDigit(Numeral(j)[0]);
      assert k[|f| + 1..] == Numeral(j);
      assert k[..|f|] == f && k[|f|] == '_';
    }
  }

  // ----- What a fresh table takes --------------------------------------------------------------

  /** The number of entries that the values take together. */
  function TotalChunks(calls: seq<Call>): nat {
    if calls == [] then 0 else TotalChunks(calls[..|calls| - 1]) + NumEntries(calls[|calls| - 1].value)
  }

  /** Keys that fit, and names that have nothing to do with one another. */
  ghost predicate Independent(calls: seq<Call>) {
    && (forall i :: 0 <= i < |calls| ==> KeysFit(calls[i].field, calls[i].value))
    && (forall i, j :: 0 <= i < |calls| && 0 <= j < |calls| && i != j ==> Unrelated(calls[i].field, calls[j].field))
  }

  /** Each call in its turn returns SetOk. */
  ghost predicate AllSucceed(calls: seq<Call>, max: nat) {
    forall i :: 0 <= i < |calls| ==>
      SetField(RunSets([], calls[..i], max), calls[i].field, calls[i].value, max).rc == SetOk
  }

  ghost predicate IsChunkKey(k: string, calls: seq<Call>) {
    exists i: nat, j: nat :: i < |calls| && k == FieldKey(calls[i].field, j)
  }

  lemma FittingKeysPassGuard(f: string, v: string)
    requires KeysFit(f, v)
    ensures GuardLength(f, NumEntries(v)) < PROPERTY_KEY_MAX
  {
    var n := NumEntries(v);
    if n > 1 {
      NumeralBounds(n);
      NumeralMonotone(n - 1, n);
      DigitGainIffPowerOfTen(n);
    }
  }

  lemma {:induction false} RemoveUnmatched(t: Table, f: string)
    requires forall e :: e in t ==> !InFamily(e.key, f)
    ensures Remove(t, f, 0) == t
  {
    hide MatchMultiEntry;
    if t != [] {
      assert t == t[..|t| - 1] + [t[|t| - 1]];
      RemoveUnmatched(t[..|t| - 1], f);
      assert !InFamily(t[|t| - 1].key, f);
    }
  }

  /** Chunks whose keys are new each take an entry. */
  lemma {:induction false} NewChunksAppend(t: Table, f: string, v: string, i: nat, max: nat)
    requires i <= NumEntries(v) && KeysFit(f, v) && WriteChunks(t, f, v, i, max).Some?
    requires forall e, j: nat :: e in t && j >= i ==> e.key != FieldKey(f, j)
    ensures var r := WriteChunks(t, f, v, i, max).value;
      && |r| == |t| + NumEntries(v) - i
      && forall e :: e in r ==> e in t || exists j: nat :: e.key == FieldKey(f, j)
    decreases NumEntries(v) - i
  {
    hide WriteChunks, FieldKey, KeysFit;
    WriteChunksStep(t, f, v, i, max);
    if i < NumEntries(v) {
      FittingKey(f, v, i);
      var t' := SetKey(t, StoredKey(f, i), v[CHUNK * i..], max).value;
      assert FindKey(t, FieldKey(f, i)).None?;
      forall e, j: nat | e in t' && j >= i + 1
        ensures e.key != FieldKey(f, j)
      {
        if e !in t && e.key == FieldKey(f, j) {
          FieldKeyInjective(f, i, j);
        }
      }
      NewChunksAppend(t', f, v, i + 1, max);
    }
  }

  lemma FittingKey(f: string, v: string, i: nat)
    requires KeysFit(f, v) && i < NumEntries(v)
    ensures |FieldKey(f, i)| < PROPERTY_KEY_MAX && StoredKey(f, i) == FieldKey(f, i)
  {
    FieldKeyMonotone(f, i, NumEntries(v) - 1);
  }

  /** A call on a name unrelated to all before: it takes as many entries as it has chunks, if there are so many. */
  lemma IndependentSet(t: Table, calls: seq<Call>, max: nat)
    requires calls != [] && Independent(calls) && Good(t, max)
    requires forall e :: e in t ==> IsChunkKey(e.key, calls[..|calls| - 1])
    ensures var c := calls[|calls| - 1];
      var r := SetField(t, c.field, c.value, max);
      && (r.rc == SetOk <==> |t| + NumEntries(c.value) <= max)
      && (r.rc == SetOk ==> |r.table| == |t| + NumEntries(c.value))
      && (r.rc == SetOk ==> forall e :: e in r.table ==> IsChunkKey(e.key, calls))
  {
    hide SetField, InFamily, FieldKey, KeysFit, Unrelated;
    var last, c := |calls| - 1, calls[|calls| - 1];
    var f, v := c.field, c.value;
    forall e | e in t
      ensures !InFamily(e.key, f) && forall j: nat :: e.key != FieldKey(f, j)
    {
      var i: nat, j: nat :| i < last && e.key == FieldKey(calls[..last][i].field, j);
      assert Unrelated(f, calls[i].field) && Unrelated(calls[i].field, f);
      UnrelatedKeysApart(f, calls[i].field, j);
    }
    RemoveUnmatched(t, f);
    SetFieldOutcome(t, f, v, max);
    FittingKeysPassGuard(f, v);
    var r := SetField(t, f, v, max);
    if r.rc == SetOk {
      SetFieldWrites(t, f, v, max);
      NewChunksAppend(t, f, v, 0, max);
      forall e | e in r.table
        ensures IsChunkKey(e.key, calls)
      {
        if e in t {
          var i: nat, j: nat :| i < last && e.key == FieldKey(calls[..last][i].field, j);
          assert e.key == FieldKey(calls[i].field, j);
        } else {
          var j: nat :| e.key == FieldKey(f, j);
          assert e.key == FieldKey(calls[last].field, j);
        }
      }
    }
  }

  lemma SetFieldWrites(t: Table, f: string, v: string, max: nat)
    requires SetField(t, f, v, max).rc == SetOk
    ensures WriteChunks(Remove(t, f, 0), f, v, 0, max) == Some(SetField(t, f, v, max).table)
  {
  }

  /** Unrelated fields share no chunk key, and neither's lie in the other's family. */
  lemma UnrelatedKeysApart(f: string, g: string, j: nat)
    requires Unrelated(f, g) && Unrelated(g, f)
    ensures !InFamily(FieldKey(g, j), f) && forall i: nat :: FieldKey(g, j) != FieldKey(f, i)
  {
    hide InFamily;
    ChunkKeyInFamily(f, g, j);
    forall i: nat
      ensures FieldKey(g, j) != FieldKey(f, i)
    {
      OwnChunkKeyInFamily(f, i);
    }
  }

  /** As long as the calls before have succeeded, the table holds their chunks and nothing else. */
  lemma {:induction false} IndependentRun(calls: seq<Call>, max: nat)
    requires Independent(calls) && AllSucceed(calls, max)
    ensures var t := RunSets([], calls, max);
      && Good(t, max) && |t| == TotalChunks(calls)
      && forall e :: e in t ==> IsChunkKey(e.key, calls)
  {
    hide Independent, IsChunkKey, SetField;
    if calls != [] {
      var n := |calls| - 1;
      var before := calls[..n];
      BeforeLast(calls, max);
      IndependentRun(before, max);
      SetFieldOutcome(RunSets([], before, max), calls[n].field, calls[n].value, max);
      IndependentSet(RunSets([], before, max), calls, max);
    }
  }

  lemma BeforeLast(calls: seq<Call>, max: nat)
    requires calls != [] && Independent(calls)
    ensures var before, c := calls[..|calls| - 1], calls[|calls| - 1];
      && Independent(before)
      && (AllSucceed(calls, max) <==>
          AllSucceed(before, max) && SetField(RunSets([], before, max), c.field, c.value, max).rc == SetOk)
  {
    hide SetField, RunSets, KeysFit, Unrelated;
    var n := |calls| - 1;
    assert forall i :: 0 <= i < n ==> calls[..n][..i] == calls[..i];
  }

  /**
   A fresh table takes values under names that have nothing to do with one another, and whose keys fit, exactly
   as long as they have no more chunks in all than it has entries.
   */
  lemma {:induction false} FreshTableTakes(calls: seq<Call>, max: nat)
    requires Independent(calls)
    ensures AllSucceed(calls, max) <==> TotalChunks(calls) <= max
  {
    hide Independent, SetField;
    if calls != [] {
      var n := |calls| - 1;
      BeforeLast(calls, max);
      FreshTableTakes(calls[..n], max);
      if AllSucceed(calls[..n], max) {
        IndependentRun(calls[..n], max);
        IndependentSet(RunSets([], calls[..n], max), calls, max);
      }
    }
  }

  /** And each of them then reads back. */
  lemma FreshTableReadsBack(calls: seq<Call>, max: nat, i: nat)
    requires Independent(calls) && TotalChunks(calls) <= max && i < |calls|
    ensures FieldValue(RunSets([], calls, max), calls[i].field) == Some(calls[i].value)
  {
    hide SetField, FieldValue, KeysFit, Unrelated;
    FreshTableTakes(calls, max);
    forall c | c in calls
      ensures c.field == calls[i].field || Unrelated(c.field, calls[i].field)
    {
      var j :| 0 <= j < |calls| && calls[j] == c;
    }
    LastWriteWins([], calls, max, calls[i].field);
    OwnWriteLast(calls, max, i, |calls|);
    assert calls[..|calls|] == calls;
  }

  lemma {:induction false} OwnWriteLast(calls: seq<Call>, max: nat, i: nat, n: nat)
    requires Independent(calls) && AllSucceed(calls, max) && i < n <= |calls|
    ensures LastEffect([], calls[..n], max, calls[i].field) == Some(Own(calls[i].value))
  {
    hide SetField, KeysFit;
    assert calls[..n][..n - 1] == calls[..n - 1];
    if n - 1 > i {
      OwnWriteLast(calls, max, i, n - 1);
      assert Unrelated(calls[n - 1].field, calls[i].field);
      assert FieldKey(calls[i].field, 0) == calls[i].field;
    }
  }

  /** The table that a device without encryption starts with has 32 entries. */
  lemma UnencryptedCapacity()
    ensures MaxEntries(CRYPT_PERSIST_DATA_SIZE) == 32
  {
  }
}
