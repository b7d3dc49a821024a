/**
 The sector-wise in-place copy that can stop on a low battery and be resumed.  As in GroupEncryption, the
 crypto device stores encrypt(s, d) when data d is written to its sector s.
 */
module FullCopy {
  import opened Common

  /** CRYPT_INPLACE_BUFSIZE / CRYPT_SECTOR_SIZE. */
  const CRYPT_SECTORS_PER_BUFSIZE := 8

  type Cipher<!B> = (nat, B) -> B

  /** Sectors from, ..., to - 1 are encrypted. */
  function EncryptSpan<B>(c: Cipher<B>, disk: seq<B>, from: nat, to: nat): (r: seq<B>)
    ensures |r| == |disk|
  {
    seq(|disk|, s requires 0 <= s < |disk| => if from <= s < to then c(s, disk[s]) else disk[s])
  }

  lemma SpanJoins<B>(c: Cipher<B>, disk: seq<B>, a: nat, b: nat, d: nat)
    requires a <= b <= d
    ensures EncryptSpan(c, EncryptSpan(c, disk, a, b), b, d) == EncryptSpan(c, disk, a, d)
  {
  }

  lemma EmptySpan<B>(c: Cipher<B>, disk: seq<B>, a: nat)
    ensures EncryptSpan(c, disk, a, a) == disk
  {
  }

  function NumBlocks(size: nat): nat {
    size / CRYPT_SECTORS_PER_BUFSIZE
  }

  /** The block in which the block-wise part of the copy starts after sector upto. */
  function StartBlock(upto: nat): nat {
    (upto + 1 + CRYPT_SECTORS_PER_BUFSIZE - 1) / CRYPT_SECTORS_PER_BUFSIZE
  }

  predicate Stops(size: nat, upto: nat, ok: Battery) {
    FirstStop(ok, StartBlock(upto), NumBlocks(size)) < NumBlocks(size)
  }

  /** What a run that resumes after sector upto adds to size_already_done. */
  function ReportedDone(size: nat, upto: nat, ok: Battery): nat {
    if Stops(size, upto, ok)
    then (FirstStop(ok, StartBlock(upto), NumBlocks(size)) + 1) * CRYPT_SECTORS_PER_BUFSIZE - 1
    else size
  }

  /** The first sector behind those that a run resuming after sector upto encrypts. */
  function CopyEnd(size: nat, upto: nat, ok: Battery): nat {
    if Stops(size, upto, ok) then ReportedDone(size, upto, ok) + 1
    else if upto + 1 <= NumBlocks(size) * CRYPT_SECTORS_PER_BUFSIZE then size
    else (if upto + 1 < size then size else upto + 1) + size % CRYPT_SECTORS_PER_BUFSIZE
  }

  lemma BlockArithmetic(size: nat, upto: nat)
    ensures NumBlocks(size) == size / CRYPT_SECTORS_PER_BUFSIZE
    ensures upto + 1 <= StartBlock(upto) * CRYPT_SECTORS_PER_BUFSIZE < upto + 1 + CRYPT_SECTORS_PER_BUFSIZE
    ensures ResumePoint(size, upto) <==> upto + 1 <= NumBlocks(size) * CRYPT_SECTORS_PER_BUFSIZE
    ensures ResumePoint(size, upto) <==> StartBlock(upto) <= NumBlocks(size)
  {
  }

  /** The sectors before the first whole block belong to the run. */
  lemma CopyEndCovers(size: nat, upto: nat, ok: Battery)
    ensures ResumePoint(size, upto) ==> StartBlock(upto) * CRYPT_SECTORS_PER_BUFSIZE <= CopyEnd(size, upto, ok)
    ensures !ResumePoint(size, upto)
        ==> CopyEnd(size, upto, ok)
            == (if upto + 1 < size then size else upto + 1) + size % CRYPT_SECTORS_PER_BUFSIZE
    ensures !ResumePoint(size, upto) ==> StartBlock(upto) > NumBlocks(size) && ReportedDone(size, upto, ok) == size
  {
    if ResumePoint(size, upto) {
      FirstStopRange(ok, StartBlock(upto), NumBlocks(size));
    }
  }

  /** A point after which an earlier run can have stopped. */
  predicate ResumePoint(size: nat, upto: nat) {
    upto + 1 <= NumBlocks(size) * CRYPT_SECTORS_PER_BUFSIZE
  }

  /** The loop over whole blocks is entered although one percent of them rounds down to none. */
  predicate DividesByZero(size: nat, upto: nat) {
    StartBlock(upto) < NumBlocks(size) && NumBlocks(size) / 100 == 0
  }

  /** A fresh copy of the volume goes through: 8 to 15 sectors, or 800 and more. */
  predicate Copyable(size: nat) {
    ResumePoint(size, 0) && !DividesByZero(size, 0)
  }

  /** For a fresh copy, these are the sizes at which the progress estimate divides by zero. */
  lemma FreshDividesByZero(size: nat)
    ensures DividesByZero(size, 0) <==> 16 <= size < 800
    ensures Copyable(size) <==> 8 <= size < 16 || 800 <= size
  {
  }

  /** The first sector behind those that a run has encrypted when it returns or dies. */
  function RunEnd(size: nat, upto: nat, ok: Battery): nat {
    if DividesByZero(size, upto) then StartBlock(upto) * CRYPT_SECTORS_PER_BUFSIZE else CopyEnd(size, upto, ok)
  }

  /** The cipher leaves no sector of the disk as it is. */
  ghost predicate ChangesEach<B(!new)>(c: Cipher<B>, disk: seq<B>) {
    forall s: nat :: s < |disk| ==> c(s, disk[s]) != disk[s]
  }

  /**
   A run that goes through encrypts exactly the rest of the volume if and only if it resumes within the
   whole blocks; from inside the last partial block it runs on past the end.
   */
  lemma FinishExactIffResumePoint<B(!new)>(c: Cipher<B>, disk: seq<B>, size: nat, upto: nat, ok: Battery)
    requires ChangesEach(c, disk) && upto < size && !Stops(size, upto, ok) && CopyEnd(size, upto, ok) <= |disk|
    ensures EncryptSpan(c, disk, upto + 1, CopyEnd(size, upto, ok)) == EncryptSpan(c, disk, upto + 1, size)
       <==> ResumePoint(size, upto)
  {
    if !ResumePoint(size, upto) {
      assert EncryptSpan(c, disk, upto + 1, CopyEnd(size, upto, ok))[size] == c(size, disk[size]);
      assert EncryptSpan(c, disk, upto + 1, size)[size] == disk[size];
    }
  }

  /** A failing input: a fresh copy of 7 sectors copies the remainder twice over and ends at sector 14. */
  lemma TinyVolumeOverruns<B>(c: Cipher<B>, disk: seq<B>, ok: Battery)
    requires |disk| >= 14 && c(7, disk[7]) != disk[7]
    ensures !DividesByZero(7, 0) && !Stops(7, 0, ok) && CopyEnd(7, 0, ok) == 14 && ReportedDone(7, 0, ok) == 7
    ensures EncryptSpan(c, disk, 1, CopyEnd(7, 0, ok)) != EncryptSpan(c, disk, 1, 7)
  {
    assert EncryptSpan(c, disk, 1, 14)[7] == c(7, disk[7]);
    assert EncryptSpan(c, disk, 1, 7)[7] == disk[7];
  }

  // ----- The loops -----------------------------------------------------------------------------

  datatype BlocksResult = WentThrough | StoppedAfter(block: nat) | DividedByZero

  /** Where the sector-wise loop up to a 4K boundary ends. */
  function HeadEnd(size: nat, start: nat): (i: nat)
    ensures i >= start
  {
    var boundary := (start + CRYPT_SECTORS_PER_BUFSIZE - 1) / CRYPT_SECTORS_PER_BUFSIZE * CRYPT_SECTORS_PER_BUFSIZE;
    if start >= size then start else if boundary < size then boundary else size
  }

  /** How the loop over whole blocks from block first on ends. */
  function BlocksOutcome(first: nat, numblocks: nat, ok: Battery): BlocksResult {
    var stop := FirstStop(ok, first, numblocks);
    if first >= numblocks then WentThrough
    else if numblocks / 100 == 0 then DividedByZero
    else if stop < numblocks then StoppedAfter(stop)
    else WentThrough
  }

  /** And the sector it then has got to from sector pos. */
  function BlocksEnd(pos: nat, first: nat, numblocks: nat, ok: Battery): nat {
    match BlocksOutcome(first, numblocks, ok)
    case DividedByZero => pos
    case StoppedAfter(block) => (block + 1) * CRYPT_SECTORS_PER_BUFSIZE
    case WentThrough => if first < numblocks then numblocks * CRYPT_SECTORS_PER_BUFSIZE else pos
  }

  /** The three loops together make up the run. */
  lemma LoopsMeet(size: nat, upto: nat, ok: Battery)
    ensures var i := HeadEnd(size, upto + 1);
      var first, n := i / CRYPT_SECTORS_PER_BUFSIZE, NumBlocks(size);
      && (first < n ==> i == first * CRYPT_SECTORS_PER_BUFSIZE)
      && i <= BlocksEnd(i, first, n, ok)
      && RunEnd(size, upto, ok) == BlocksEnd(i, first, n, ok)
           + (if BlocksOutcome(first, n, ok).WentThrough? then size % CRYPT_SECTORS_PER_BUFSIZE else 0)
      && (BlocksOutcome(first, n, ok).DividedByZero? <==> DividesByZero(size, upto))
      && (match BlocksOutcome(first, n, ok)
          case DividedByZero => true
          case StoppedAfter(block) => ReportedDone(size, upto, ok) == (block + 1) * CRYPT_SECTORS_PER_BUFSIZE - 1 < size
          case WentThrough => ReportedDone(size, upto, ok) == size && !Stops(size, upto, ok))
  {
    hide FirstStop, CopyEnd;
    BlockArithmetic(size, upto);
    CopyEndCovers(size, upto, ok);
    HeadMeetsBlocks(size, upto);
    if ResumePoint(size, upto) {
      FirstStopRange(ok, StartBlock(upto), NumBlocks(size));
      CopyEndWithin(size, upto, ok);
    }
  }

  lemma CopyEndWithin(size: nat, upto: nat, ok: Battery)
    requires ResumePoint(size, upto)
    ensures CopyEnd(size, upto, ok) == if Stops(size, upto, ok) then ReportedDone(size, upto, ok) + 1 else size
  {
  }

  lemma HeadMeetsBlocks(size: nat, upto: nat)
    ensures ResumePoint(size, upto) ==> HeadEnd(size, upto + 1) == StartBlock(upto) * CRYPT_SECTORS_PER_BUFSIZE
    ensures !ResumePoint(size, upto) ==>
      && HeadEnd(size, upto + 1) == (if upto + 1 < size then size else upto + 1)
      && HeadEnd(size, upto + 1) / CRYPT_SECTORS_PER_BUFSIZE >= NumBlocks(size)
  {
  }

  /**
   The copy as written: sectors up to a 4K boundary, whole 4K blocks, then the remainder.  It dies if and only
   if its progress estimate divides by zero.  When it goes through, it has encrypted exactly the rest of the
   volume if and only if it resumed at a resume point.
   */
  method EnableInplaceFull<B(0, !new)>(c: Cipher<B>, disk: array<B>, size: nat, previouslyEncryptedUpto: nat,
                                       ok: Battery)
      returns (sizeAlreadyDone: Option<nat>)
    requires RunEnd(size, previouslyEncryptedUpto, ok) <= disk.Length
    modifies disk
    ensures disk[..] == EncryptSpan(c, old(disk[..]), previouslyEncryptedUpto + 1,
                                    RunEnd(size, previouslyEncryptedUpto, ok))
    ensures sizeAlreadyDone.None? <==> DividesByZero(size, previouslyEncryptedUpto)
    ensures sizeAlreadyDone.Some? ==> sizeAlreadyDone.value == ReportedDone(size, previouslyEncryptedUpto, ok)
    ensures ChangesEach(c, old(disk[..])) && sizeAlreadyDone == Some(size) && size > previouslyEncryptedUpto ==>
      (disk[..] == EncryptSpan(c, old(disk[..]), previouslyEncryptedUpto + 1, size)
       <==> ResumePoint(size, previouslyEncryptedUpto))
  {
    hide EncryptSpan, CopyEnd, RunEnd, ReportedDone, Stops, ResumePoint, HeadEnd, BlocksOutcome, BlocksEnd,
         DividesByZero;
    ghost var original, start := disk[..], previouslyEncryptedUpto + 1;
    LoopsMeet(size, previouslyEncryptedUpto, ok);
    var numblocks, remainder := size / CRYPT_SECTORS_PER_BUFSIZE, size % CRYPT_SECTORS_PER_BUFSIZE;
    var i := CopyHead(c, disk, size, previouslyEncryptedUpto + 1);
    var pos, blocks := CopyBlocks(c, disk, i, i / CRYPT_SECTORS_PER_BUFSIZE, numblocks, ok);
    SpanJoins(c, original, start, i, pos);
    match blocks
    case DividedByZero =>
      return None;
    case StoppedAfter(block) =>
      return Some((block + 1) * CRYPT_SECTORS_PER_BUFSIZE - 1);
    case WentThrough =>
      CopyTail(c, disk, pos, remainder);
      SpanJoins(c, original, start, pos, pos + remainder);
      if ChangesEach(c, original) && size > previouslyEncryptedUpto {
        RunEndsWithin(size, previouslyEncryptedUpto, ok);
        FinishExactIffResumePoint(c, original, size, previouslyEncryptedUpto, ok);
      }
      return Some(size);
  }

  lemma RunEndsWithin(size: nat, upto: nat, ok: Battery)
    requires !DividesByZero(size, upto)
    ensures RunEnd(size, upto, ok) == CopyEnd(size, upto, ok)
  {
  }

  /** Sector by sector up to a 4K boundary. */
  method CopyHead<B(0)>(c: Cipher<B>, disk: array<B>, size: nat, start: nat) returns (i: nat)
    requires HeadEnd(size, start) <= disk.Length
    modifies disk
    ensures i == HeadEnd(size, start) && disk[..] == EncryptSpan(c, old(disk[..]), start, i)
  {
    hide EncryptSpan;
    ghost var original := disk[..];
    EmptySpan(c, original, start);
    i := start;
    while i < size && i % CRYPT_SECTORS_PER_BUFSIZE != 0
      invariant start <= i <= HeadEnd(size, start)
      invariant disk[..] == EncryptSpan(c, original, start, i)
    {
      CopySectors(c, disk, i, 1);
      SpanJoins(c, original, start, i, i + 1);
      i := i + 1;
    }
  }

  /** The majority of the volume in 4K blocks, with a look at progress before and at the battery after each. */
  method CopyBlocks<B(0)>(c: Cipher<B>, disk: array<B>, start: nat, first: nat, numblocks: nat, ok: Battery)
      returns (pos: nat, r: BlocksResult)
    requires first < numblocks ==> start == first * CRYPT_SECTORS_PER_BUFSIZE
    requires BlocksEnd(start, first, numblocks, ok) <= disk.Length
    modifies disk
    ensures r == BlocksOutcome(first, numblocks, ok) && pos == BlocksEnd(start, first, numblocks, ok)
    ensures disk[..] == EncryptSpan(c, old(disk[..]), start, pos)
  {
    hide EncryptSpan, FirstStop;
    ghost var original := disk[..];
    EmptySpan(c, original, start);
    var onePct, curPct := numblocks / 100, 0;
    var i := first;
    pos := start;
    while i < numblocks
      invariant first <= i && (i <= numblocks || i == first)
      invariant first < numblocks ==> pos == i * CRYPT_SECTORS_PER_BUFSIZE
      invariant i > first ==> onePct > 0
      invariant i == first ==> pos == start
      invariant start <= pos && disk[..] == EncryptSpan(c, original, start, pos)
      invariant FirstStop(ok, i, numblocks) == FirstStop(ok, first, numblocks)
      decreases numblocks - i
    {
      FirstStopStep(ok, i, numblocks);
      if onePct == 0 {
        return pos, DividedByZero;
      }
      var newPct := i / onePct;
      if newPct > curPct {
        curPct := newPct;
      }
      if ok(i) {
        FirstStopRange(ok, i + 1, numblocks);
      }
      CopySectors(c, disk, pos, CRYPT_SECTORS_PER_BUFSIZE);
      SpanJoins(c, original, start, pos, pos + CRYPT_SECTORS_PER_BUFSIZE);
      pos := pos + CRYPT_SECTORS_PER_BUFSIZE;
      if !ok(i) {
        return pos, StoppedAfter(i);
      }
      i := i + 1;
    }
    FirstStopStep(ok, i, numblocks);
    return pos, WentThrough;
  }

  /** The remaining sectors. */
  method CopyTail<B(0)>(c: Cipher<B>, disk: array<B>, start: nat, remainder: nat)
    requires start + remainder <= disk.Length
    modifies disk
    ensures disk[..] == EncryptSpan(c, old(disk[..]), start, start + remainder)
  {
    hide EncryptSpan;
    ghost var original := disk[..];
    EmptySpan(c, original, start);
    for i := 0 to remainder
      invariant disk[..] == EncryptSpan(c, original, start, start + i)
    {
      CopySectors(c, disk, start + i, 1);
      SpanJoins(c, original, start, start + i, start + i + 1);
    }
  }

  /** Read n sectors at pos of the plain device and write them at pos of the crypto device. */
  method CopySectors<B(0)>(c: Cipher<B>, disk: array<B>, pos: nat, n: nat)
    requires pos + n <= disk.Length
    modifies disk
    ensures disk[..] == EncryptSpan(c, old(disk[..]), pos, pos + n)
  {
    var buf := disk[pos..pos + n];
    forall k | 0 <= k < n {
      disk[pos + k] := c(pos + k, buf[k]);
    }
  }

  /** A run that stops got at least one block further, within the volume, to a point it can resume from. */
  lemma StopMakesProgress(size: nat, upto: nat, ok: Battery)
    requires ResumePoint(size, upto) && Stops(size, upto, ok)
    ensures ResumePoint(size, ReportedDone(size, upto, ok))
    ensures upto / CRYPT_SECTORS_PER_BUFSIZE < (ReportedDone(size, upto, ok) + 1) / CRYPT_SECTORS_PER_BUFSIZE
    ensures upto < ReportedDone(size, upto, ok) < size
  {
    FirstStopRange(ok, StartBlock(upto), NumBlocks(size));
  }

  /**
   Where a run stops, in terms of the battery: behind the first whole block after which it is low, with the
   last sector of that block on record; and a run whose battery is never low goes through.
   */
  lemma StopsBehindFirstLow(size: nat, upto: nat, ok: Battery, low: nat)
    requires ResumePoint(size, upto) && StartBlock(upto) <= low < NumBlocks(size)
    requires !ok(low) && forall j: nat :: StartBlock(upto) <= j < low ==> ok(j)
    ensures Stops(size, upto, ok)
    ensures CopyEnd(size, upto, ok) == 8 * low + 8 && ReportedDone(size, upto, ok) == 8 * low + 7
  {
    StopsAtFirstLow(ok, StartBlock(upto), NumBlocks(size));
  }

  lemma GoesThroughUnlessLow(size: nat, upto: nat, ok: Battery)
    requires ResumePoint(size, upto) && forall j: nat :: upto / 8 < j < size / 8 ==> ok(j)
    ensures !Stops(size, upto, ok) && CopyEnd(size, upto, ok) == size && ReportedDone(size, upto, ok) == size
  {
    StopsAtFirstLow(ok, StartBlock(upto), NumBlocks(size));
  }

  // ----- Runs of stops and resumptions ---------------------------------------------------------

  datatype Progress<B> = Progress(disk: seq<B>, upto: nat)

  /** One run after another from a fresh volume, each resumed where the one before stopped, until done. */
  ghost function Resumed<B>(c: Cipher<B>, disk: seq<B>, size: nat, oks: seq<Battery>): Progress<B> {
    if oks == [] then Progress(disk, 0)
    else
      var p := Resumed(c, disk, size, oks[..|oks| - 1]);
      var ok := oks[|oks| - 1];
      if p.upto == size then p
      else Progress(EncryptSpan(c, p.disk, p.upto + 1, CopyEnd(size, p.upto, ok)), ReportedDone(size, p.upto, ok))
  }

  /** The first sector behind those that count as encrypted when upto is on record. */
  function Frontier(size: nat, upto: nat): nat {
    if upto == size then size else upto + 1
  }

  /**
   Whatever the pattern of stops, the sectors from 1 up to the recorded point are encrypted, each once, and
   no other sector changes; in particular sector 0 and everything from size on never do.
   */
  lemma {:induction false} ResumedExactlyOnce<B>(c: Cipher<B>, disk: seq<B>, size: nat, oks: seq<Battery>)
    requires Copyable(size)
    ensures var p := Resumed(c, disk, size, oks);
      && (p.upto == size || ResumePoint(size, p.upto))
      && Frontier(size, p.upto) <= size
      && p.disk == EncryptSpan(c, disk, 1, Frontier(size, p.upto))
  {
    if oks == [] {
      EmptySpan(c, disk, 1);
    } else {
      var before, ok := oks[..|oks| - 1], oks[|oks| - 1];
      ResumedExactlyOnce(c, disk, size, before);
      var p := Resumed(c, disk, size, before);
      if p.upto != size {
        if Stops(size, p.upto, ok) {
          StopMakesProgress(size, p.upto, ok);
        }
        SpanJoins(c, disk, 1, p.upto + 1, CopyEnd(size, p.upto, ok));
      }
    }
  }

  /** Every stop costs at least a block, so the copy is over after at most one run more than there are blocks. */
  lemma {:induction false} ResumedFinishes<B>(c: Cipher<B>, disk: seq<B>, size: nat, oks: seq<Battery>)
    requires Copyable(size)
    ensures var p := Resumed(c, disk, size, oks);
      p.upto == size || (p.upto + 1) / CRYPT_SECTORS_PER_BUFSIZE >= |oks|
    ensures |oks| > NumBlocks(size) ==> Resumed(c, disk, size, oks).upto == size
  {
    ResumedExactlyOnce(c, disk, size, oks);
    if oks != [] {
      var before, ok := oks[..|oks| - 1], oks[|oks| - 1];
      ResumedFinishes(c, disk, size, before);
      ResumedExactlyOnce(c, disk, size, before);
      var p := Resumed(c, disk, size, before);
      if p.upto != size && Stops(size, p.upto, ok) {
        StopMakesProgress(size, p.upto, ok);
        FirstStopRange(ok, StartBlock(p.upto), NumBlocks(size));
      }
    }
  }
}
