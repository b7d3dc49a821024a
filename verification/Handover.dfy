/**
 What becomes of an encryption by groups that a low battery stops: the next call refuses to go on by groups and
 resumes as a full copy, behind the sector that the stopped run reported.
 */
module Handover {
  import opened Common
  import opened GroupEncryption
  import FullCopy

  /** The sectors in a block of 512 to 4096 bytes. */
  predicate BlockSize(spb: nat) {
    spb in {1, 2, 4, 8}
  }

  /** The bitmaps that the run reads before it stops are as on the original disk. */
  ghost predicate BitmapsReadSurvive<B>(c: Codec<B>, l: Layout, disk: seq<B>, ok: Battery)
    requires Fits(l, disk)
  {
    forall i: nat :: i < |l.bitmapBlocks| && !RunGroups(c, l, disk, i, ok).stopped ==> BitmapSurvives(c, l, disk, i)
  }

  // ----- What a stopped run leaves -------------------------------------------------------------

  lemma RunNotStopped<B>(c: Codec<B>, l: Layout, disk: seq<B>, i: nat, n: nat, ok: Battery)
    requires i <= n <= |l.bitmapBlocks| && Fits(l, disk) && !RunGroups(c, l, disk, n, ok).stopped
    ensures !RunGroups(c, l, disk, i, ok).stopped
  {
    hide RunGroups;
    if RunGroups(c, l, disk, i, ok).stopped {
      StopIsFinal(c, l, disk, i, n, ok);
    }
  }

  /** The bitmap of group n, as the run reads it, says of each of its blocks what the original one says. */
  lemma MarksAreUse<B>(c: Codec<B>, l: Layout, disk: seq<B>, n: nat, ok: Battery, b: nat)
    requires n < |l.bitmapBlocks| && Fits(l, disk) && BitmapsReadSurvive(c, l, disk, ok)
    requires !RunGroups(c, l, disk, n, ok).stopped
    ensures InGroup(l, n, b) ==>
      Marked(c, RunGroups(c, l, disk, n, ok).disk[l.bitmapBlocks[n]], FirstBlock(l, n), b)
      == UsedInGroup(c, l, disk, n, b)
  {
    hide RunGroups, EncryptFirst, IdealBlock, Marked, FirstBlock;
    forall i: nat | i < n
      ensures BitmapSurvives(c, l, disk, i)
    {
      RunNotStopped(c, l, disk, i, n, ok);
    }
    RunCompletes(c, l, disk, n, ok);
    PrefixExact(c, l, disk, n, l.bitmapBlocks[n]);
    assert BitmapSurvives(c, l, disk, n);
  }

  /** Where a run stands after n groups: behind all their blocks, or where it stopped. */
  lemma {:induction false} RunBounds<B>(c: Codec<B>, l: Layout, disk: seq<B>, n: nat, ok: Battery)
    requires n <= |l.bitmapBlocks| && Fits(l, disk)
    ensures var run := RunGroups(c, l, disk, n, ok);
      && run.upto <= FirstBlock(l, n)
      && (!run.stopped ==> forall b: nat :: Used(c, l, disk, n, b) ==> b < run.upto)
  {
    hide RunGroups, RunGroup, Fits, Used;
    var run := RunGroups(c, l, disk, n, ok);
    if n == 0 {
      NoneUsed(c, l, disk);
      RunStep(c, l, disk, 0, ok);
    } else {
      RunBounds(c, l, disk, n - 1, ok);
      RunStep(c, l, disk, n, ok);
      FirstBlockStep(l, n - 1);
      if !run.stopped {
        RunCompletes(c, l, disk, n, ok);
        forall b: nat | Used(c, l, disk, n, b)
          ensures b < run.upto
        {
          UsedBefore(c, l, disk, n, b);
        }
      }
    }
  }

  lemma NoneUsed<B>(c: Codec<B>, l: Layout, disk: seq<B>)
    requires Fits(l, disk)
    ensures forall b: nat :: !Used(c, l, disk, 0, b)
  {
  }

  lemma UsedBefore<B>(c: Codec<B>, l: Layout, disk: seq<B>, n: nat, b: nat)
    requires n <= |l.bitmapBlocks| && Fits(l, disk) && Used(c, l, disk, n, b)
    ensures n > 0 && b < GroupEnd(l, n - 1) && b < l.lenBlocks
  {
    var i: nat :| i < n && UsedInGroup(c, l, disk, i, b);
    FirstBlockStep(l, i);
    FirstBlockStep(l, n - 1);
    FirstBlockMonotone(l, i + 1, n);
  }

  lemma RunStep<B>(c: Codec<B>, l: Layout, disk: seq<B>, n: nat, ok: Battery)
    requires n <= |l.bitmapBlocks| && Fits(l, disk)
    ensures n == 0 ==> RunGroups(c, l, disk, n, ok) == GroupRun(disk, 0, l.firstDataBlock, false)
    ensures n > 0 ==>
      var before := RunGroups(c, l, disk, n - 1, ok);
      RunGroups(c, l, disk, n, ok) == if before.stopped then before else RunGroup(c, l, before, n - 1, ok)
  {
  }

  /** The used blocks before upto are encrypted, each once; nothing else has changed. */
  lemma {:induction false} StoppedExact<B>(c: Codec<B>, l: Layout, disk: seq<B>, n: nat, ok: Battery, b: nat)
    requires n <= |l.bitmapBlocks| && Fits(l, disk) && BitmapsReadSurvive(c, l, disk, ok) && b < |disk|
    ensures var run := RunGroups(c, l, disk, n, ok);
      run.disk[b] == if Used(c, l, disk, n, b) && b < run.upto then c.encrypt(b, disk[b]) else disk[b]
  {
    hide RunGroups, Fits, Used, BitmapsReadSurvive, FirstBlock;
    RunStep(c, l, disk, n, ok);
    if n == 0 {
      NoneUsed(c, l, disk);
    } else {
      var before := RunGroups(c, l, disk, n - 1, ok);
      var run := RunGroups(c, l, disk, n, ok);
      StoppedExact(c, l, disk, n - 1, ok, b);
      RunBounds(c, l, disk, n - 1, ok);
      UsedStep(c, l, disk, n - 1, b);
      if !before.stopped {
        GroupFits(l, disk, n - 1);
        MarksAreUse(c, l, disk, n - 1, ok, b);
        EncryptUsedAt(c, before.disk, before.disk[l.bitmapBlocks[n - 1]], FirstBlock(l, n - 1), run.upto, b);
      }
    }
  }

  // ----- What is reported ----------------------------------------------------------------------

  lemma {:induction false} RunStartWindow<B>(c: Codec<B>, bitmap: B, first: nat, next: nat)
    requires first <= next
    ensures next < RunStart(c, bitmap, first, next) + BLOCKS_AT_A_TIME
    ensures RunStart(c, bitmap, first, next) / BLOCKS_AT_A_TIME == next / BLOCKS_AT_A_TIME
  {
    if RunStart(c, bitmap, first, next) != next {
      RunStartWindow(c, bitmap, first, next - 1);
    }
  }

  /** No marked block before upto lies behind the last run. */
  lemma {:induction false} LastRunCovers<B>(c: Codec<B>, bitmap: B, first: nat, upto: nat, b: nat)
    requires first <= b < upto && Marked(c, bitmap, first, b)
    ensures var r := LastRun(c, bitmap, first, upto);
      r.Some? && first <= r.value && b < r.value + BLOCKS_AT_A_TIME
  {
    if Marked(c, bitmap, first, upto - 1) {
      RunStartWindow(c, bitmap, first, upto - 1);
    } else {
      LastRunCovers(c, bitmap, first, upto - 1, b);
    }
  }

  lemma {:induction false} LastRunFrom<B>(c: Codec<B>, bitmap: B, first: nat, upto: nat)
    requires first <= upto
    ensures var r := LastRun(c, bitmap, first, upto); r.Some? ==> first <= r.value
  {
    if upto > first && !Marked(c, bitmap, first, upto - 1) {
      LastRunFrom(c, bitmap, first, upto - 1);
    }
  }

  /** The report is for a run that no encrypted block lies a window or more behind. */
  ghost predicate ReportCovers(report: int, b: nat) {
    report != 0 && CRYPT_SECTOR_SIZE * b < report + 1 + CRYPT_SECTOR_SIZE * BLOCKS_AT_A_TIME
  }

  /** The report is 0, or the number of the block where some run starts, taken times CRYPT_SECTOR_SIZE, less one. */
  ghost predicate Reportable(report: int) {
    report == 0 || exists b0: nat :: report == CRYPT_SECTOR_SIZE * b0 - 1
  }

  lemma {:induction false} ReportIsLastRun<B>(c: Codec<B>, l: Layout, disk: seq<B>, n: nat, ok: Battery, b: nat)
    requires n <= |l.bitmapBlocks| && Fits(l, disk) && BitmapsReadSurvive(c, l, disk, ok)
    ensures var run := RunGroups(c, l, disk, n, ok);
      && Reportable(run.report)
      && (Used(c, l, disk, n, b) && b < run.upto ==> ReportCovers(run.report, b))
  {
    hide RunGroups, Fits, Used, BitmapsReadSurvive, FirstBlock, LastRun;
    RunStep(c, l, disk, n, ok);
    if n == 0 {
      NoneUsed(c, l, disk);
    } else {
      var before := RunGroups(c, l, disk, n - 1, ok);
      var run := RunGroups(c, l, disk, n, ok);
      ReportIsLastRun(c, l, disk, n - 1, ok, b);
      RunBounds(c, l, disk, n - 1, ok);
      UsedStep(c, l, disk, n - 1, b);
      if !before.stopped {
        GroupFits(l, disk, n - 1);
        var bitmap, first := before.disk[l.bitmapBlocks[n - 1]], FirstBlock(l, n - 1);
        LastRunFrom(c, bitmap, first, run.upto);
        MarksAreUse(c, l, disk, n - 1, ok, b);
        if UsedInGroup(c, l, disk, n - 1, b) && b < run.upto {
          LastRunCovers(c, bitmap, first, run.upto, b);
        }
        var r := LastRun(c, bitmap, first, run.upto);
        if r.Some? {
          assert run.report == CRYPT_SECTOR_SIZE * r.value - 1;
        } else {
          assert run.report == before.report;
        }
      }
    }
  }

  // ----- Blocks and sectors --------------------------------------------------------------------

  /** Sector k of block b. */
  function SectorNo(spb: nat, b: nat, k: nat): nat {
    spb * b + k
  }

  ghost predicate Blocks<S>(spb: nat, disk: seq<seq<S>>) {
    forall b: nat :: b < |disk| ==> |disk[b]| == spb
  }

  /** The crypto device encrypts a block sector by sector. */
  function EncryptBlock<S>(c: FullCopy.Cipher<S>, spb: nat, b: nat, x: seq<S>): (r: seq<S>)
    ensures |r| == |x|
  {
    seq(|x|, k requires 0 <= k < |x| => c(SectorNo(spb, b, k), x[k]))
  }

  function BlockCodec<S>(c: FullCopy.Cipher<S>, spb: nat, bit: (seq<S>, nat) -> bool): Codec<seq<S>> {
    Codec((b: nat, x: seq<S>) => EncryptBlock(c, spb, b, x), bit)
  }

  /** The same disk as sectors. */
  function Sectors<S>(disk: seq<seq<S>>): seq<S> {
    if disk == [] then [] else Sectors(disk[..|disk| - 1]) + disk[|disk| - 1]
  }

  lemma {:induction false} SectorsLength<S>(spb: nat, disk: seq<seq<S>>)
    requires Blocks(spb, disk)
    ensures |Sectors(disk)| == spb * |disk|
  {
    if disk != [] {
      SectorsLength(spb, disk[..|disk| - 1]);
      assert spb * |disk| == spb * (|disk| - 1) + spb;
    }
  }

  lemma {:induction false} SectorAt<S>(spb: nat, disk: seq<seq<S>>, b: nat, k: nat)
    requires Blocks(spb, disk) && b < |disk| && k < spb
    ensures SectorNo(spb, b, k) < |Sectors(disk)| && Sectors(disk)[SectorNo(spb, b, k)] == disk[b][k]
  {
    var init := disk[..|disk| - 1];
    SectorsLength(spb, init);
    if b < |init| {
      SectorAt(spb, init, b, k);
    }
  }

  // ----- The handover --------------------------------------------------------------------------

  /** Every sector of the block is the original one encrypted once. */
  ghost predicate BlockDone<S>(c: FullCopy.Cipher<S>, spb: nat, disk: seq<seq<S>>, after: seq<S>, b: nat)
    requires Blocks(spb, disk) && b < |disk|
  {
    forall k: nat :: k < spb ==>
      SectorNo(spb, b, k) < |after| && after[SectorNo(spb, b, k)] == c(SectorNo(spb, b, k), disk[b][k])
  }

  /** The cipher leaves no sector of the disk as it is. */
  ghost predicate ChangesSectors<S(!new)>(c: FullCopy.Cipher<S>, spb: nat, disk: seq<seq<S>>)
    requires Blocks(spb, disk)
  {
    forall b: nat, k: nat :: b < |disk| && k < spb ==> c(SectorNo(spb, b, k), disk[b][k]) != disk[b][k]
  }

  lemma Multiples(spb: nat, b: nat)
    ensures spb == 1 ==> spb * b == b
    ensures spb == 2 ==> spb * b == 2 * b
    ensures spb == 4 ==> spb * b == 4 * b
    ensures spb == 8 ==> spb * b == 8 * b
  {
  }

  /** A block of 4K or less ends before sector 512 * b0 if it starts before it, or lies less than a window behind b0. */
  lemma EndsBefore(spb: nat, b: nat, start: nat, b0: nat)
    requires (spb == 1 && start == b) || (spb == 2 && start == 2 * b) || (spb == 4 && start == 4 * b)
          || (spb == 8 && start == 8 * b)
    requires b0 >= 1 && (start < 512 * b0 || b < b0 + 8)
    ensures start + spb <= 512 * b0
  {
    if spb == 8 {
      assert b + 1 <= 64 * b0;
    } else if spb == 4 {
      assert b + 1 <= 128 * b0;
    } else if spb == 2 {
      assert b + 1 <= 256 * b0;
    }
  }

  lemma InFrontOfReport(spb: nat, b: nat, report: int)
    requires BlockSize(spb) && Reportable(report) && report > 0
    requires ReportCovers(report, b) || spb * b <= report
    ensures spb * b + spb <= report + 1
  {
    var b0: nat :| report == CRYPT_SECTOR_SIZE * b0 - 1;
    assert report == 512 * b0 - 1;
    assert ReportCovers(report, b) ==> 512 * b < report + 1 + 512 * 8;
    Multiples(spb, b);
    EndsBefore(spb, b, spb * b, b0);
  }

  lemma {:induction false} InFrontOfEnd(spb: nat, b: nat, n: nat)
    requires b < n
    ensures spb * b + spb <= spb * n
  {
    assert spb * n == spb * (n - 1) + spb;
    if b < n - 1 {
      InFrontOfEnd(spb, b, n - 1);
    }
  }

  /** One used block comes out right if and only if the run had dealt with it or the copy starts before it. */
  lemma HandoverBlock<S(!new)>(c: FullCopy.Cipher<S>, spb: nat, bit: (seq<S>, nat) -> bool, l: Layout,
                         disk: seq<seq<S>>, ok: Battery, end: nat, b: nat)
    requires BlockSize(spb) && Blocks(spb, disk) && ChangesSectors(c, spb, disk) && Fits(l, disk)
    requires BitmapsReadSurvive(BlockCodec(c, spb, bit), l, disk, ok)
    requires var run := RunGroups(BlockCodec(c, spb, bit), l, disk, |l.bitmapBlocks|, ok); run.report > 0
    requires end >= spb * l.lenBlocks && Used(BlockCodec(c, spb, bit), l, disk, |l.bitmapBlocks|, b)
    ensures b < |disk|
    ensures var run := RunGroups(BlockCodec(c, spb, bit), l, disk, |l.bitmapBlocks|, ok);
      BlockDone(c, spb, disk, FullCopy.EncryptSpan(c, Sectors(run.disk), run.report + 1, end), b)
      <==> (run.upto <= b ==> run.report < spb * b)
  {
    hide RunGroups, Used, Fits, BitmapsReadSurvive, Sectors, Reportable, ReportCovers;
    var n := |l.bitmapBlocks|;
    var codec := BlockCodec(c, spb, bit);
    var run := RunGroups(codec, l, disk, n, ok);
    var after := FullCopy.EncryptSpan(c, Sectors(run.disk), run.report + 1, end);
    UsedBefore(codec, l, disk, n, b);
    UsedFits(l, disk);
    RunKeepsBlocks(c, spb, bit, l, disk, ok);
    StoppedExact(codec, l, disk, n, ok, b);
    ReportIsLastRun(codec, l, disk, n, ok, b);
    InFrontOfEnd(spb, b, l.lenBlocks);
    if b < run.upto || spb * b <= run.report {
      InFrontOfReport(spb, b, run.report);
    }
    hide SectorNo;
    if run.upto <= b && spb * b <= run.report {
      CopiedSector(c, spb, run.disk, run.report + 1, end, b, 0);
      assert after[SectorNo(spb, b, 0)] == disk[b][0];
    } else {
      forall k: nat | k < spb
        ensures SectorNo(spb, b, k) < |after| && after[SectorNo(spb, b, k)] == c(SectorNo(spb, b, k), disk[b][k])
      {
        CopiedSector(c, spb, run.disk, run.report + 1, end, b, k);
      }
    }
  }

  /** What the full copy does to one sector of a block that it starts before or behind. */
  lemma CopiedSector<S>(c: FullCopy.Cipher<S>, spb: nat, disk: seq<seq<S>>, from: nat, end: nat, b: nat, k: nat)
    requires Blocks(spb, disk) && b < |disk| && k < spb && spb * b + spb <= end
    requires from <= spb * b || spb * b + spb <= from
    ensures var after, at := FullCopy.EncryptSpan(c, Sectors(disk), from, end), SectorNo(spb, b, k);
      at < |after| && after[at] == if from <= spb * b then c(at, disk[b][k]) else disk[b][k]
  {
    SectorAt(spb, disk, b, k);
  }

  lemma UsedFits<B>(l: Layout, disk: seq<B>)
    requires Fits(l, disk)
    ensures l.lenBlocks <= |disk|
  {
  }

  lemma RunKeepsBlocks<S>(c: FullCopy.Cipher<S>, spb: nat, bit: (seq<S>, nat) -> bool, l: Layout,
                          disk: seq<seq<S>>, ok: Battery)
    requires Blocks(spb, disk) && Fits(l, disk) && BitmapsReadSurvive(BlockCodec(c, spb, bit), l, disk, ok)
    ensures var run := RunGroups(BlockCodec(c, spb, bit), l, disk, |l.bitmapBlocks|, ok);
      Blocks(spb, run.disk)
  {
    hide RunGroups, Used, Fits, BitmapsReadSurvive;
    forall b: nat | b < |disk|
      ensures |RunGroups(BlockCodec(c, spb, bit), l, disk, |l.bitmapBlocks|, ok).disk[b]| == spb
    {
      StoppedExact(BlockCodec(c, spb, bit), l, disk, |l.bitmapBlocks|, ok, b);
    }
  }

  /**
   After a stop that reports a sector above 0, the resumed copy finishes the job, with every used block
   encrypted exactly once, if and only if the sector reported lies in front of every used block that the
   stopped run had not dealt with.
   */
  lemma HandoverExactIff<S(!new)>(c: FullCopy.Cipher<S>, spb: nat, bit: (seq<S>, nat) -> bool, l: Layout,
                            disk: seq<seq<S>>, ok: Battery, end: nat)
    requires BlockSize(spb) && Blocks(spb, disk) && ChangesSectors(c, spb, disk) && Fits(l, disk)
    requires BitmapsReadSurvive(BlockCodec(c, spb, bit), l, disk, ok)
    requires var run := RunGroups(BlockCodec(c, spb, bit), l, disk, |l.bitmapBlocks|, ok); run.report > 0
    requires end >= spb * l.lenBlocks
    ensures var codec := BlockCodec(c, spb, bit);
      var run := RunGroups(codec, l, disk, |l.bitmapBlocks|, ok);
      var after := FullCopy.EncryptSpan(c, Sectors(run.disk), run.report + 1, end);
      (forall b: nat :: b < |disk| && Used(codec, l, disk, |l.bitmapBlocks|, b) ==> BlockDone(c, spb, disk, after, b))
      <==> (forall b: nat :: Used(codec, l, disk, |l.bitmapBlocks|, b) && run.upto <= b ==> run.report < spb * b)
  {
    hide RunGroups, Used, Fits, BitmapsReadSurvive, Sectors, BlockDone, Blocks, ChangesSectors;
    forall b: nat | Used(BlockCodec(c, spb, bit), l, disk, |l.bitmapBlocks|, b)
      ensures b < |disk|
      ensures var run := RunGroups(BlockCodec(c, spb, bit), l, disk, |l.bitmapBlocks|, ok);
        BlockDone(c, spb, disk, FullCopy.EncryptSpan(c, Sectors(run.disk), run.report + 1, end), b)
        <==> (run.upto <= b ==> run.report < spb * b)
    {
      HandoverBlock(c, spb, bit, l, disk, ok, end, b);
    }
  }

  /**
   Reports up to 0, after which no copy is resumed: 0 says that nothing has been written, and any other that
   nothing behind the first window has.
   */
  lemma ReportNotResumed<B>(c: Codec<B>, l: Layout, disk: seq<B>, ok: Battery)
    requires Fits(l, disk) && BitmapsReadSurvive(c, l, disk, ok)
    requires RunGroups(c, l, disk, |l.bitmapBlocks|, ok).report <= 0
    ensures var run := RunGroups(c, l, disk, |l.bitmapBlocks|, ok);
      && run.report in {0, -1}
      && (run.report == 0 ==> run.disk == disk)
      && forall b: nat :: BLOCKS_AT_A_TIME <= b < |disk| ==> run.disk[b] == disk[b]
  {
    hide RunGroups, Used, Fits, BitmapsReadSurvive;
    var run := RunGroups(c, l, disk, |l.bitmapBlocks|, ok);
    ReportIsLastRun(c, l, disk, |l.bitmapBlocks|, ok, 0);
    forall b: nat | b < |disk|
      ensures run.report == 0 || BLOCKS_AT_A_TIME <= b ==> run.disk[b] == disk[b]
    {
      ReportIsLastRun(c, l, disk, |l.bitmapBlocks|, ok, b);
      StoppedExact(c, l, disk, |l.bitmapBlocks|, ok, b);
    }
  }

  // ----- A handover that fails -----------------------------------------------------------------

  /** One group of 128 blocks of 8 sectors, all in use. */
  const FULL_GROUP := Layout(0, 128, 128, [0])

  ghost predicate AllInUse<S(!new)>(c: Codec<seq<S>>) {
    forall x, k :: c.bit(x, k)
  }

  lemma {:induction false} FullRuns<S(!new)>(c: Codec<seq<S>>, bitmap: seq<S>, next: nat)
    requires AllInUse(c)
    ensures RunStart(c, bitmap, 0, next) == next - next % BLOCKS_AT_A_TIME
  {
    if next % BLOCKS_AT_A_TIME != 0 {
      assert Marked(c, bitmap, 0, next - 1);
      FullRuns(c, bitmap, next - 1);
    }
  }

  lemma {:induction false} FirstStopAt(ok: Battery, i: nat, s: nat, n: nat)
    requires i <= s < n && !ok(s) && forall j: nat :: i <= j < s ==> ok(j)
    ensures FirstStop(ok, i, n) == s
    decreases s - i
  {
    if i < s {
      FirstStopAt(ok, i + 1, s, n);
    }
  }

  lemma FullGroupFits<S>(disk: seq<seq<S>>)
    requires |disk| == 128
    ensures Fits(FULL_GROUP, disk)
    ensures FirstBlock(FULL_GROUP, 0) == 0 && GroupEnd(FULL_GROUP, 0) == 128
  {
  }

  lemma FullGroupUsed<S(!new)>(c: Codec<seq<S>>, disk: seq<seq<S>>, ok: Battery)
    requires |disk| == 128 && AllInUse(c) && Fits(FULL_GROUP, disk)
    ensures BitmapsReadSurvive(c, FULL_GROUP, disk, ok)
    ensures Used(c, FULL_GROUP, disk, 1, 16)
  {
    hide RunGroups, Fits, FirstBlock;
    FullGroupFits(disk);
    assert UsedInGroup(c, FULL_GROUP, disk, 0, 16);
    NoneUsed(c, FULL_GROUP, disk);
  }

  lemma FullGroupRun<S(!new)>(c: Codec<seq<S>>, disk: seq<seq<S>>, ok: Battery)
    requires |disk| == 128 && AllInUse(c) && !ok(16) && forall j: nat :: j < 16 ==> ok(j)
    requires Fits(FULL_GROUP, disk)
    ensures var run := RunGroups(c, FULL_GROUP, disk, 1, ok);
      run.stopped && run.upto == 16 && run.report == 4095
  {
    hide RunGroups, Fits, FirstBlock, GroupEnd, FirstStop, RunStart, LastRun, EncryptUsed, InGroup;
    var bitmap := disk[0];
    FullGroupFits(disk);
    FirstStopAt(ok, 0, 16, 128);
    FullRuns(c, bitmap, 17);
    RunStartStep(c, bitmap, 0, 16);
    FullRuns(c, bitmap, 15);
    LastOfFull(c, bitmap, 16);
    RunStep(c, FULL_GROUP, disk, 0, ok);
    RunStep(c, FULL_GROUP, disk, 1, ok);
  }

  lemma LastOfFull<S(!new)>(c: Codec<seq<S>>, bitmap: seq<S>, upto: nat)
    requires AllInUse(c) && upto > 0
    ensures LastRun(c, bitmap, 0, upto) == Some(RunStart(c, bitmap, 0, upto - 1))
  {
    assert Marked(c, bitmap, 0, upto - 1);
  }

  /**
   A failing input: a stop after block 16 drops the run pending there and reports sector 4095, behind the
   volume's 1024.  The next call takes the encryption for finished, with block 16 still plain.
   */
  lemma StopLosesBlock<S(!new)>(c: FullCopy.Cipher<S>, bit: (seq<S>, nat) -> bool, disk: seq<seq<S>>, ok: Battery)
    requires |disk| == 128 && Blocks(8, disk) && ChangesSectors(c, 8, disk)
    requires AllInUse(BlockCodec(c, 8, bit)) && !ok(16) && forall j: nat :: j < 16 ==> ok(j)
    ensures var run := RunGroups(BlockCodec(c, 8, bit), FULL_GROUP, disk, 1, ok);
      && run.stopped && run.report > 8 * FULL_GROUP.lenBlocks
      && !BlockDone(c, 8, disk, FullCopy.EncryptSpan(c, Sectors(run.disk), run.report + 1, 1024), 16)
  {
    hide RunGroups, Used, Fits, BitmapsReadSurvive, Sectors, BlockDone, AllInUse, ChangesSectors, FirstBlock, GroupEnd,
         BlockCodec, FullCopy.EncryptSpan;
    FullGroupFits(disk);
    FullGroupUsed(BlockCodec(c, 8, bit), disk, ok);
    FullGroupRun(BlockCodec(c, 8, bit), disk, ok);
    HandoverBlock(c, 8, bit, FULL_GROUP, disk, ok, 1024, 16);
  }
}
