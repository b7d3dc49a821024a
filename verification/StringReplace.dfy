/** The in-place replace-all on a character buffer. */
module StringReplace {

  /** The size of the local scratch array. */
  const TMP_SIZE := 1000

  // ----- What replacing means ------------------------------------------------------------------

  function Replace(s: string, key: string, swap: string): string
    requires key != ""
  {
    if |s| < |key| then s
    else if key <= s then swap + Replace(s[|key|..], key, swap)
    else [s[0]] + Replace(s[1..], key, swap)
  }

  predicate OccursAt(s: string, key: string, i: nat) {
    i + |key| <= |s| && s[i..i + |key|] == key
  }

  function Join(pieces: seq<string>, sep: string): string
    requires pieces != []
  {
    if |pieces| == 1 then pieces[0] else pieces[0] + sep + Join(pieces[1..], sep)
  }

  /** In the piece followed by key, key occurs only at the end. */
  ghost predicate EndsAtFirst(piece: string, key: string) {
    forall i: nat :: i < |piece| ==> !OccursAt(piece + key, key, i)
  }

  ghost predicate NoOccurrence(s: string, key: string) {
    forall i: nat :: !OccursAt(s, key, i)
  }

  /** A text cut at the leftmost occurrence of key, then at the leftmost one in what follows it, and so on. */
  ghost predicate CutLeftmost(pieces: seq<string>, key: string) {
    && pieces != []
    && (forall k :: 0 <= k < |pieces| - 1 ==> EndsAtFirst(pieces[k], key))
    && NoOccurrence(pieces[|pieces| - 1], key)
  }

  lemma ShiftOccurrence(c: char, s: string, key: string, i: nat)
    ensures OccursAt([c] + s, key, i + 1) == OccursAt(s, key, i)
  {
    if i + |key| <= |s| {
      assert ([c] + s)[i + 1..i + 1 + |key|] == s[i..i + |key|];
    }
  }

  lemma {:induction false} ReplaceNothing(s: string, key: string, swap: string)
    requires key != "" && NoOccurrence(s, key)
    ensures Replace(s, key, swap) == s
  {
    if |s| >= |key| {
      assert !OccursAt(s, key, 0);
      forall i: nat
        ensures !OccursAt(s[1..], key, i)
      {
        assert !OccursAt(s, key, i + 1);
        if i + |key| <= |s| - 1 {
          assert s[1..][i..i + |key|] == s[i + 1..i + 1 + |key|];
        }
      }
      ReplaceNothing(s[1..], key, swap);
    }
  }

  lemma ReplaceSkips(s: string, key: string, swap: string)
    requires key != "" && |s| >= |key| && !OccursAt(s, key, 0)
    ensures Replace(s, key, swap) == [s[0]] + Replace(s[1..], key, swap)
  {
    assert s[0..0 + |key|] == s[..|key|];
  }

  lemma EndsAtFirstTail(piece: string, key: string)
    requires piece != "" && EndsAtFirst(piece, key)
    ensures EndsAtFirst(piece[1..], key)
  {
    forall i: nat | i < |piece| - 1
      ensures !OccursAt(piece[1..] + key, key, i)
    {
      assert [piece[0]] + (piece[1..] + key) == piece + key;
      ShiftOccurrence(piece[0], piece[1..] + key, key, i);
    }
  }

  lemma NotAtStart(piece: string, key: string, rest: string)
    requires piece != "" && EndsAtFirst(piece, key)
    ensures !OccursAt(piece + key + rest, key, 0)
  {
    assert !OccursAt(piece + key, key, 0);
    assert (piece + key + rest)[0..0 + |key|] == (piece + key)[0..0 + |key|];
  }

  lemma ReplaceAtStart(key: string, rest: string, swap: string)
    requires key != ""
    ensures Replace(key + rest, key, swap) == swap + Replace(rest, key, swap)
  {
    assert (key + rest)[|key|..] == rest;
  }

  lemma {:induction false} ReplaceFirst(piece: string, rest: string, key: string, swap: string)
    requires key != "" && EndsAtFirst(piece, key)
    ensures Replace(piece + key + rest, key, swap) == piece + swap + Replace(rest, key, swap)
  {
    hide Replace, OccursAt, EndsAtFirst;
    if piece == "" {
      ReplaceAtStart(key, rest, swap);
      assert "" + key + rest == key + rest;
      assert "" + swap == swap;
    } else {
      var s, tail := piece + key + rest, piece[1..];
      NotAtStart(piece, key, rest);
      ReplaceSkips(s, key, swap);
      EndsAtFirstTail(piece, key);
      ReplaceFirst(tail, rest, key, swap);
      assert s[1..] == tail + key + rest;
      assert [s[0]] + (tail + swap + Replace(rest, key, swap)) == piece + swap + Replace(rest, key, swap);
    }
  }

  /** Replacing is joining the leftmost cut with the other separator, whichever way the cut was found. */
  lemma {:induction false} ReplaceIsLeftmost(pieces: seq<string>, key: string, swap: string)
    requires key != "" && CutLeftmost(pieces, key)
    ensures Replace(Join(pieces, key), key, swap) == Join(pieces, swap)
  {
    if |pieces| == 1 {
      ReplaceNothing(pieces[0], key, swap);
    } else {
      assert EndsAtFirst(pieces[0], key);
      assert pieces[1..][|pieces[1..]| - 1] == pieces[|pieces| - 1];
      ReplaceFirst(pieces[0], Join(pieces[1..], key), key, swap);
      ReplaceIsLeftmost(pieces[1..], key, swap);
    }
  }

  /** Every text has such a cut. */
  lemma {:induction false} CutExists(s: string, key: string) returns (pieces: seq<string>)
    requires key != ""
    ensures CutLeftmost(pieces, key) && Join(pieces, key) == s
  {
    if |s| < |key| {
      pieces := [s];
    } else if key <= s {
      var rest := CutExists(s[|key|..], key);
      pieces := [""] + rest;
      assert pieces[1..] == rest;
      assert "" + key + s[|key|..] == s;
    } else {
      var rest := CutExists(s[1..], key);
      var first := [s[0]] + rest[0];
      pieces := [first] + rest[1..];
      assert pieces[1..] == rest[1..];
      if |rest| == 1 {
        assert first == s;
        forall i: nat
          ensures !OccursAt(first, key, i)
        {
          if i > 0 {
            ShiftOccurrence(s[0], rest[0], key, i - 1);
          }
        }
      } else {
        assert [s[0]] + (rest[0] + key) == first + key;
        assert (first + key) + Join(rest[1..], key) == s;
        forall i: nat | i < |first|
          ensures !OccursAt(first + key, key, i)
        {
          if i > 0 {
            ShiftOccurrence(s[0], rest[0] + key, key, i - 1);
          } else {
            assert (first + key)[0..0 + |key|] == s[..|key|];
          }
        }
      }
    }
  }

  lemma {:induction false} ReplaceLength(s: string, key: string, swap: string)
    requires key != ""
    ensures |swap| >= |key| ==> |Replace(s, key, swap)| >= |s|
    ensures |swap| <= |key| ==> |Replace(s, key, swap)| <= |s|
  {
    if |s| >= |key| {
      if key <= s {
        ReplaceLength(s[|key|..], key, swap);
      } else {
        ReplaceLength(s[1..], key, swap);
      }
    }
  }

  // ----- The loop ------------------------------------------------------------------------------

  /** A buffer of size characters holding a terminated string. */
  class CharBuffer {
    var text: string
    const size: nat

    ghost predicate Valid()
      reads this
    {
      |text| < size
    }

    constructor (text: string, size: nat)
      requires |text| < size
      ensures Valid() && this.text == text && this.size == size
    {
      this.text, this.size := text, size;
    }

    /** strcpy to position at of the buffer. */
    method Copy(at: nat, s: string)
      requires Valid() && at <= |text| && at + |s| < size
      modifies this
      ensures Valid() && text == old(text)[..at] + s
    {
      text := text[..at] + s;
    }

    /** Put swap in the place of n characters from position i on, by way of the scratch array. */
    method ReplaceOne(tmp: CharBuffer, i: nat, n: nat, swap: string)
      requires Valid() && tmp.Valid() && tmp != this && i + n <= |text| < tmp.size
      requires |text| - n + |swap| < size && |text| - n + |swap| < tmp.size
      modifies this, tmp
      ensures Valid() && tmp.Valid() && text == old(text[..i]) + swap + old(text[i..][n..])
    {
      ghost var s := text;
      tmp.Copy(0, text);
      tmp.Copy(i, swap);
      tmp.Copy(i + |swap|, text[i + n..]);
      assert s[i..][n..] == s[i + n..];
      assert tmp.text == s[..i] + swap + s[i + n..];
      Copy(0, tmp.text);
    }

    /**
     lidbg_strrpl, on a buffer that holds the text before and after; so must the scratch array, if the key
     occurs at all.  What has been put in is never scanned again, and the text not yet scanned shrinks even
     while the whole grows.
     */
    method StrRpl(key: string, swap: string)
      requires Valid() && key != ""
      requires |Replace(text, key, swap)| < size
      requires NoOccurrence(text, key) || (|text| < TMP_SIZE && |Replace(text, key, swap)| < TMP_SIZE)
      modifies this
      ensures Valid() && text == Replace(old(text), key, swap)
    {
      hide Replace, NoOccurrence, OccursAt;
      var tmp := new CharBuffer("", TMP_SIZE);
      ghost var original, goal := text, Replace(text, key, swap);
      ReplaceLength(text, key, swap);
      var length := |text|;
      var i: int := 0;
      while i <= length - |key|
        invariant Valid() && tmp.Valid() && fresh(tmp) && tmp.size == TMP_SIZE && length == |text| && 0 <= i <= length
        invariant goal == text[..i] + Replace(text[i..], key, swap)
        invariant NoOccurrence(original, key) ==> text == original
        invariant |text| <= if |original| < |goal| then |goal| else |original|
        decreases length - i
      {
        var flag := true;
        var j := 0;
        while j < |key|
          invariant j <= |key|
          invariant flag && forall k :: 0 <= k < j ==> text[i + k] == key[k]
        {
          if text[i + j] != key[j] {
            flag := false;
            break;
          }
          j := j + 1;
        }
        ghost var done, rest := text[..i], text[i..];
        if flag {
          assert key <= rest;
          Occurs(text, key, i);
          Replaced(done, rest, key, swap, done + swap + rest[|key|..]);
          ReplaceOne(tmp, i, |key|, swap);
          i := i + |swap| - 1;
          length := |text|;
        } else {
          Kept(text, i, j, key, swap);
        }
        i := i + 1;
      }
      ReplaceShort(text[i..], key, swap);
      assert text[..i] + text[i..] == text;
    }
  }

  lemma Occurs(text: string, key: string, i: nat)
    requires i + |key| <= |text| && forall k :: 0 <= k < |key| ==> text[i + k] == key[k]
    ensures !NoOccurrence(text, key)
  {
    assert OccursAt(text, key, i);
  }

  lemma ReplaceShort(s: string, key: string, swap: string)
    requires |s| < |key|
    ensures Replace(s, key, swap) == s
  {
  }

  lemma Replaced(done: string, rest: string, key: string, swap: string, tmp: string)
    requires key != "" && key <= rest && tmp == done + swap + rest[|key|..]
    ensures done + Replace(rest, key, swap)
         == tmp[..|done| + |swap|] + Replace(tmp[|done| + |swap|..], key, swap)
    ensures |swap| >= |key| ==> |tmp| <= |done + Replace(rest, key, swap)|
    ensures |swap| < |key| ==> |tmp| < |done| + |rest|
  {
    assert tmp[..|done| + |swap|] == done + swap;
    assert tmp[|done| + |swap|..] == rest[|key|..];
    ReplaceLength(rest[|key|..], key, swap);
    assert done + (swap + Replace(rest[|key|..], key, swap)) == done + swap + Replace(rest[|key|..], key, swap);
  }

  lemma Kept(text: string, i: nat, j: nat, key: string, swap: string)
    requires j < |key| && i + |key| <= |text| && text[i + j] != key[j]
    ensures text[..i] + Replace(text[i..], key, swap) == text[..i + 1] + Replace(text[i + 1..], key, swap)
  {
    var rest := text[i..];
    assert rest[j] != key[j];
    assert rest[1..] == text[i + 1..];
    assert text[..i + 1] == text[..i] + [text[i]];
  }
}
