/**
 In-place encryption of the used blocks of an ext4 file system, group by group.  The crypto device and the
 plain device share their storage: writing data d to block b of the crypto device leaves E(b, d) in block
 b of the plain one, from which later groups also read their block bitmaps.
 */
module GroupEncryption {
  import opened Common

  const BLOCKS_AT_A_TIME := 8
  const CRYPT_SECTOR_SIZE := 512

  /** bitmapBlocks[i] is where group i keeps its block bitmap. */
  datatype Layout = Layout(firstDataBlock: nat, blocksPerGroup: nat, lenBlocks: nat, bitmapBlocks: seq<nat>)

  /** The cipher by block number, and the bit that says whether a block is in use. */
  datatype Codec<!B> = Codec(encrypt: (nat, B) -> B, bit: (B, nat) -> bool)

  function FirstBlock(l: Layout, i: nat): (b: nat)
    ensures b >= l.firstDataBlock
  {
    l.firstDataBlock + i * l.blocksPerGroup
  }

  /** The groups tile the blocks from the first data block on, and the last group is not empty. */
  ghost predicate Tiles(l: Layout) {
    && l.blocksPerGroup > 0
    && l.lenBlocks <= FirstBlock(l, |l.bitmapBlocks|)
    && (|l.bitmapBlocks| > 0 ==> FirstBlock(l, |l.bitmapBlocks| - 1) < l.lenBlocks)
  }

  ghost predicate Fits<B>(l: Layout, disk: seq<B>) {
    && Tiles(l)
    && l.lenBlocks <= |disk|
    && forall i :: 0 <= i < |l.bitmapBlocks| ==> l.bitmapBlocks[i] < |disk|
  }

  predicate InGroup(l: Layout, i: nat, b: nat) {
    FirstBlock(l, i) <= b < FirstBlock(l, i) + l.blocksPerGroup && b < l.lenBlocks
  }

  lemma FirstBlockStep(l: Layout, i: nat)
    ensures FirstBlock(l, i + 1) == FirstBlock(l, i) + l.blocksPerGroup
  {
    assert (i + 1) * l.blocksPerGroup == i * l.blocksPerGroup + l.blocksPerGroup;
  }

  lemma {:induction false} FirstBlockMonotone(l: Layout, i: nat, j: nat)
    requires i <= j
    ensures FirstBlock(l, i) <= FirstBlock(l, j)
  {
    if i < j {
      FirstBlockMonotone(l, i, j - 1);
      FirstBlockStep(l, j - 1);
    }
  }

  /** A block lies in at most one group. */
  lemma GroupUnique(l: Layout, i: nat, j: nat, b: nat)
    requires InGroup(l, i, b) && InGroup(l, j, b)
    ensures i == j
  {
    FirstBlockStep(l, i);
    FirstBlockStep(l, j);
    if i != j {
      FirstBlockMonotone(l, (if i < j then i else j) + 1, if i < j then j else i);
    }
  }

  /** Every block from the first data block on lies in a group, and this is which one. */
  lemma GroupOf(l: Layout, b: nat)
    requires Tiles(l) && l.firstDataBlock <= b < l.lenBlocks
    ensures var x := b - l.firstDataBlock;
      var i := x / l.blocksPerGroup;
      && i < |l.bitmapBlocks| && InGroup(l, i, b)
      && b - FirstBlock(l, i) == x % l.blocksPerGroup
  {
    var x := b - l.firstDataBlock;
    var i := x / l.blocksPerGroup;
    assert x == i * l.blocksPerGroup + x % l.blocksPerGroup;
    assert FirstBlock(l, i) == l.firstDataBlock + i * l.blocksPerGroup;
    if i >= |l.bitmapBlocks| {
      FirstBlockMonotone(l, |l.bitmapBlocks|, i);
    }
  }

  // ----- What the loops compute ----------------------------------------------------------------

  /** The bitmap of a group that starts at first says that block b is in use. */
  predicate Marked<B>(c: Codec<B>, bitmap: B, first: nat, b: nat) {
    first <= b && c.bit(bitmap, b - first)
  }

  /** The blocks before upto that the bitmap marks are encrypted. */
  function EncryptUsed<B>(c: Codec<B>, disk: seq<B>, bitmap: B, first: nat, upto: nat): (r: seq<B>)
    ensures |r| == |disk|
  {
    seq(|disk|, b requires 0 <= b < |disk| =>
      if b < upto && Marked(c, bitmap, first, b) then c.encrypt(b, disk[b]) else disk[b])
  }

  /** Blocks offset, ..., offset + count - 1 are encrypted. */
  function EncryptRun<B>(c: Codec<B>, disk: seq<B>, offset: nat, count: nat): (r: seq<B>)
    ensures |r| == |disk|
  {
    seq(|disk|, b requires 0 <= b < |disk| => if offset <= b < offset + count then c.encrypt(b, disk[b]) else disk[b])
  }

  function GroupEnd(l: Layout, i: nat): nat {
    if FirstBlock(l, i) + l.blocksPerGroup < l.lenBlocks then FirstBlock(l, i) + l.blocksPerGroup else l.lenBlocks
  }

  function EncryptGroup<B>(c: Codec<B>, l: Layout, disk: seq<B>, i: nat): (r: seq<B>)
    requires i < |l.bitmapBlocks| && l.bitmapBlocks[i] < |disk|
    ensures |r| == |disk|
  {
    EncryptUsed(c, disk, disk[l.bitmapBlocks[i]], FirstBlock(l, i), GroupEnd(l, i))
  }

  /** The disk after the first n groups. */
  ghost function EncryptFirst<B>(c: Codec<B>, l: Layout, disk: seq<B>, n: nat): (r: seq<B>)
    requires n <= |l.bitmapBlocks| && Fits(l, disk)
    ensures |r| == |disk|
  {
    if n == 0 then disk else EncryptGroup(c, l, EncryptFirst(c, l, disk, n - 1), n - 1)
  }

  /** Blocks from, ..., upto - 1 are all in use. */
  ghost predicate AllMarked<B>(c: Codec<B>, bitmap: B, first: nat, from: nat, upto: nat) {
    forall b: nat :: from <= b < upto ==> Marked(c, bitmap, first, b)
  }

  lemma NoneMarked<B>(c: Codec<B>, bitmap: B, first: nat, from: nat)
    ensures AllMarked(c, bitmap, first, from, from)
  {
  }

  lemma MarkNext<B>(c: Codec<B>, bitmap: B, first: nat, block: nat, from: nat)
    requires AllMarked(c, bitmap, first, from, first + block)
    ensures Marked(c, bitmap, first, first + block) == c.bit(bitmap, block)
    ensures c.bit(bitmap, block) ==> AllMarked(c, bitmap, first, from, first + block + 1)
  {
  }

  /** Flushing the pending run, if there is one, brings the disk up to date. */
  lemma FlushCatchesUp<B>(c: Codec<B>, disk: seq<B>, bitmap: B, first: nat, upto: nat, offset: nat, count: nat)
    requires count <= upto && (count > 0 ==> offset + count == upto)
    requires AllMarked(c, bitmap, first, upto - count, upto)
    ensures EncryptRun(c, EncryptUsed(c, disk, bitmap, first, upto - count), offset, count)
         == EncryptUsed(c, disk, bitmap, first, upto)
  {
    assert forall b: nat :: upto - count <= b < upto ==> Marked(c, bitmap, first, b);
  }

  lemma EmptyRun<B>(c: Codec<B>, disk: seq<B>, offset: nat)
    ensures EncryptRun(c, disk, offset, 0) == disk
  {
  }

  lemma NothingUsedYet<B>(c: Codec<B>, disk: seq<B>, bitmap: B, first: nat)
    ensures EncryptUsed(c, disk, bitmap, first, first) == disk
  {
    forall b: nat | b < |disk|
      ensures EncryptUsed(c, disk, bitmap, first, first)[b] == disk[b]
    {
      EncryptUsedAt(c, disk, bitmap, first, first, b);
    }
  }

  lemma EncryptUsedAt<B>(c: Codec<B>, disk: seq<B>, bitmap: B, first: nat, upto: nat, b: nat)
    requires b < |disk|
    ensures EncryptUsed(c, disk, bitmap, first, upto)[b]
         == if b < upto && Marked(c, bitmap, first, b) then c.encrypt(b, disk[b]) else disk[b]
  {
  }

  lemma SkipUnused<B>(c: Codec<B>, disk: seq<B>, bitmap: B, first: nat, upto: nat)
    requires !Marked(c, bitmap, first, upto)
    ensures EncryptUsed(c, disk, bitmap, first, upto + 1) == EncryptUsed(c, disk, bitmap, first, upto)
  {
  }

  lemma GroupFits<B>(l: Layout, disk: seq<B>, i: nat)
    requires Fits(l, disk) && i < |l.bitmapBlocks|
    ensures FirstBlock(l, i) < l.lenBlocks <= |disk| && l.bitmapBlocks[i] < |disk|
  {
    FirstBlockMonotone(l, i, |l.bitmapBlocks| - 1);
  }

  lemma GroupDone<B>(c: Codec<B>, l: Layout, disk: seq<B>, i: nat)
    requires Fits(l, disk) && i < |l.bitmapBlocks|
    ensures var before := EncryptFirst(c, l, disk, i);
      EncryptFirst(c, l, disk, i + 1)
      == EncryptUsed(c, before, before[l.bitmapBlocks[i]], FirstBlock(l, i), GroupEnd(l, i))
  {
  }

  // ----- What encryption is for ----------------------------------------------------------------

  predicate UsedInGroup<B>(c: Codec<B>, l: Layout, disk: seq<B>, i: nat, b: nat)
    requires i < |l.bitmapBlocks| && l.bitmapBlocks[i] < |disk|
  {
    InGroup(l, i, b) && Marked(c, disk[l.bitmapBlocks[i]], FirstBlock(l, i), b)
  }

  /** Block b is in use according to the bitmaps of the first n groups. */
  ghost predicate Used<B>(c: Codec<B>, l: Layout, disk: seq<B>, n: nat, b: nat)
    requires n <= |l.bitmapBlocks| && Fits(l, disk)
  {
    exists i: nat :: i < n && UsedInGroup(c, l, disk, i, b)
  }

  /** In terms of the bits alone: block b is in use if bit r of bitmap q says so, for q groups of blocks and r more. */
  lemma UsedIffBit<B>(c: Codec<B>, l: Layout, disk: seq<B>, b: nat)
    requires Fits(l, disk)
    ensures Used(c, l, disk, |l.bitmapBlocks|, b) ==> l.firstDataBlock <= b < l.lenBlocks
    ensures l.firstDataBlock <= b < l.lenBlocks ==>
      var x := b - l.firstDataBlock;
      && x / l.blocksPerGroup < |l.bitmapBlocks|
      && (Used(c, l, disk, |l.bitmapBlocks|, b)
          <==> c.bit(disk[l.bitmapBlocks[x / l.blocksPerGroup]], x % l.blocksPerGroup))
  {
    hide FirstBlock;
    if l.firstDataBlock <= b < l.lenBlocks {
      GroupOf(l, b);
      var i := (b - l.firstDataBlock) / l.blocksPerGroup;
      assert UsedInGroup(c, l, disk, i, b)
        <==> c.bit(disk[l.bitmapBlocks[i]], (b - l.firstDataBlock) % l.blocksPerGroup);
      forall j: nat | j < |l.bitmapBlocks| && UsedInGroup(c, l, disk, j, b)
        ensures j == i
      {
        GroupUnique(l, i, j, b);
      }
    }
  }

  /** Block b with exactly the blocks in use in the first n groups encrypted, each once. */
  ghost function IdealBlock<B>(c: Codec<B>, l: Layout, disk: seq<B>, n: nat, b: nat): B
    requires n <= |l.bitmapBlocks| && Fits(l, disk) && b < |disk|
  {
    if Used(c, l, disk, n, b) then c.encrypt(b, disk[b]) else disk[b]
  }

  /** Every block in use on the original disk is encrypted once, and every other block is untouched. */
  ghost predicate ExactlyOnce<B>(c: Codec<B>, l: Layout, disk: seq<B>, after: seq<B>)
    requires Fits(l, disk)
  {
    |after| == |disk| && forall b: nat :: b < |disk| ==> after[b] == IdealBlock(c, l, disk, |l.bitmapBlocks|, b)
  }

  /**
   The bitmap of group i, which by its turn has been encrypted if it sits in a used block of an earlier group,
   still says the same about every block of the group.
   */
  ghost predicate BitmapSurvives<B>(c: Codec<B>, l: Layout, disk: seq<B>, i: nat)
    requires i < |l.bitmapBlocks| && Fits(l, disk)
  {
    forall b: nat :: InGroup(l, i, b) ==>
      Marked(c, IdealBlock(c, l, disk, i, l.bitmapBlocks[i]), FirstBlock(l, i), b)
      == Marked(c, disk[l.bitmapBlocks[i]], FirstBlock(l, i), b)
  }

  /** No group's bitmap lies in a used block of an earlier group. */
  ghost predicate BitmapsLocal<B>(c: Codec<B>, l: Layout, disk: seq<B>)
    requires Fits(l, disk)
  {
    forall i: nat :: i < |l.bitmapBlocks| ==> !Used(c, l, disk, i, l.bitmapBlocks[i])
  }

  lemma UsedStep<B>(c: Codec<B>, l: Layout, disk: seq<B>, n: nat, b: nat)
    requires n < |l.bitmapBlocks| && Fits(l, disk)
    ensures Used(c, l, disk, n + 1, b) <==> Used(c, l, disk, n, b) || UsedInGroup(c, l, disk, n, b)
    ensures InGroup(l, n, b) ==> !Used(c, l, disk, n, b)
  {
    if InGroup(l, n, b) && Used(c, l, disk, n, b) {
      var i: nat :| i < n && UsedInGroup(c, l, disk, i, b);
      GroupUnique(l, i, n, b);
    }
  }

  lemma GroupBlock<B>(c: Codec<B>, l: Layout, disk: seq<B>, n: nat, b: nat)
    requires n < |l.bitmapBlocks| && Fits(l, disk) && b < |disk|
    ensures var before := EncryptFirst(c, l, disk, n);
      EncryptFirst(c, l, disk, n + 1)[b]
      == if UsedInGroup(c, l, before, n, b) then c.encrypt(b, before[b]) else before[b]
  {
    hide EncryptFirst, EncryptUsed, FirstBlock;
    var before := EncryptFirst(c, l, disk, n);
    GroupDone(c, l, disk, n);
    EncryptUsedAt(c, before, before[l.bitmapBlocks[n]], FirstBlock(l, n), GroupEnd(l, n), b);
  }

  lemma IdealStep<B>(c: Codec<B>, l: Layout, disk: seq<B>, n: nat, b: nat)
    requires n < |l.bitmapBlocks| && Fits(l, disk) && b < |disk|
    ensures IdealBlock(c, l, disk, n + 1, b)
         == if UsedInGroup(c, l, disk, n, b) then c.encrypt(b, disk[b]) else IdealBlock(c, l, disk, n, b)
    ensures UsedInGroup(c, l, disk, n, b) ==> IdealBlock(c, l, disk, n, b) == disk[b]
  {
    hide Used, Fits;
    UsedStep(c, l, disk, n, b);
  }

  /** As long as the bitmaps read so far have survived, the loop does what it is for. */
  lemma {:induction false} PrefixExact<B>(c: Codec<B>, l: Layout, disk: seq<B>, n: nat, b: nat)
    requires n <= |l.bitmapBlocks| && Fits(l, disk) && b < |disk|
    requires forall i: nat :: i < n ==> BitmapSurvives(c, l, disk, i)
    ensures EncryptFirst(c, l, disk, n)[b] == IdealBlock(c, l, disk, n, b)
  {
    if n > 0 {
      hide EncryptFirst, IdealBlock, Marked, FirstBlock, Fits;
      GroupFits(l, disk, n - 1);
      PrefixExact(c, l, disk, n - 1, b);
      PrefixExact(c, l, disk, n - 1, l.bitmapBlocks[n - 1]);
      assert BitmapSurvives(c, l, disk, n - 1);
      GroupBlock(c, l, disk, n - 1, b);
      IdealStep(c, l, disk, n - 1, b);
    } else {
      assert !Used(c, l, disk, 0, b);
    }
  }

  /** Later groups leave the blocks of group i alone. */
  lemma {:induction false} LaterGroupsApart<B>(c: Codec<B>, l: Layout, disk: seq<B>, i: nat, n: nat, b: nat)
    requires i < n <= |l.bitmapBlocks| && Fits(l, disk) && InGroup(l, i, b)
    ensures EncryptFirst(c, l, disk, n)[b] == EncryptFirst(c, l, disk, i + 1)[b]
  {
    if n > i + 1 {
      hide EncryptFirst, FirstBlock, Fits;
      LaterGroupsApart(c, l, disk, i, n - 1, b);
      GroupBlock(c, l, disk, n - 1, b);
      if InGroup(l, n - 1, b) {
        GroupUnique(l, i, n - 1, b);
      }
    }
  }

  /** The cipher leaves no block of the disk as it is. */
  ghost predicate ChangesEach<B>(c: Codec<B>, disk: seq<B>) {
    forall b: nat :: b < |disk| ==> c.encrypt(b, disk[b]) != disk[b]
  }

  /** A bitmap that does not survive makes some block of its group come out wrong. */
  lemma LostBitmapShows<B>(c: Codec<B>, l: Layout, disk: seq<B>, i: nat)
    requires i < |l.bitmapBlocks| && Fits(l, disk)
    requires ChangesEach(c, disk)
    requires forall j: nat :: j < i ==> BitmapSurvives(c, l, disk, j)
    requires !BitmapSurvives(c, l, disk, i)
    ensures !ExactlyOnce(c, l, disk, EncryptFirst(c, l, disk, |l.bitmapBlocks|))
  {
    var n := |l.bitmapBlocks|;
    var b: nat :| InGroup(l, i, b) &&
      Marked(c, IdealBlock(c, l, disk, i, l.bitmapBlocks[i]), FirstBlock(l, i), b)
      != Marked(c, disk[l.bitmapBlocks[i]], FirstBlock(l, i), b);
    PrefixExact(c, l, disk, i, b);
    PrefixExact(c, l, disk, i, l.bitmapBlocks[i]);
    GroupBlock(c, l, disk, i, b);
    LaterGroupsApart(c, l, disk, i, n, b);
    UsedStep(c, l, disk, i, b);
    assert EncryptFirst(c, l, disk, i)[b] == disk[b];
    assert EncryptFirst(c, l, disk, i + 1)[b] != IdealBlock(c, l, disk, i + 1, b);
    assert Used(c, l, disk, n, b) <==> Used(c, l, disk, i + 1, b) by {
      if Used(c, l, disk, n, b) {
        var j: nat :| j < n && UsedInGroup(c, l, disk, j, b);
        GroupUnique(l, i, j, b);
      }
    }
  }

  /**
   Encrypting all groups is exact if and only if every bitmap survives until it is read.  (The converse needs
   a cipher that changes every block on the disk; the direct part, PrefixExact, does not.)
   */
  lemma GroupsExactIffBitmapsSurvive<B>(c: Codec<B>, l: Layout, disk: seq<B>)
    requires Fits(l, disk)
    requires ChangesEach(c, disk)
    ensures ExactlyOnce(c, l, disk, EncryptFirst(c, l, disk, |l.bitmapBlocks|))
       <==> forall i: nat :: i < |l.bitmapBlocks| ==> BitmapSurvives(c, l, disk, i)
  {
    var n := |l.bitmapBlocks|;
    if forall i: nat :: i < n ==> BitmapSurvives(c, l, disk, i) {
      forall b: nat | b < |disk|
        ensures EncryptFirst(c, l, disk, n)[b] == IdealBlock(c, l, disk, n, b)
      {
        PrefixExact(c, l, disk, n, b);
      }
    } else {
      var i := FirstLost(c, l, disk, 0);
      LostBitmapShows(c, l, disk, i);
    }
  }

  lemma FirstLost<B>(c: Codec<B>, l: Layout, disk: seq<B>, from: nat) returns (i: nat)
    requires Fits(l, disk) && from <= |l.bitmapBlocks|
    requires forall j: nat :: j < from ==> BitmapSurvives(c, l, disk, j)
    requires exists j: nat :: j < |l.bitmapBlocks| && !BitmapSurvives(c, l, disk, j)
    ensures i < |l.bitmapBlocks| && !BitmapSurvives(c, l, disk, i)
    ensures forall j: nat :: j < i ==> BitmapSurvives(c, l, disk, j)
    decreases |l.bitmapBlocks| - from
  {
    i := from;
    if BitmapSurvives(c, l, disk, from) {
      i := FirstLost(c, l, disk, from + 1);
    }
  }

  /** Bitmaps outside the used blocks of earlier groups suffice. */
  lemma LocalBitmapsExact<B>(c: Codec<B>, l: Layout, disk: seq<B>)
    requires Fits(l, disk) && BitmapsLocal(c, l, disk)
    ensures ExactlyOnce(c, l, disk, EncryptFirst(c, l, disk, |l.bitmapBlocks|))
  {
    forall b: nat | b < |disk|
      ensures EncryptFirst(c, l, disk, |l.bitmapBlocks|)[b] == IdealBlock(c, l, disk, |l.bitmapBlocks|, b)
    {
      PrefixExact(c, l, disk, |l.bitmapBlocks|, b);
    }
  }

  /** Two groups of two blocks; the bitmap of group 1 lies in block 1, a used block of group 0. */
  const STRAY_BITMAP := Layout(0, 2, 4, [0, 1])

  /** A cipher that adds one, and bitmaps that mark every block of their group or none. */
  const PARITY_CODEC: Codec<int> := Codec((b: nat, x: int) => x + 1, (x: int, k: nat) => x % 2 == 1)

  /** A failing input: group 1 is empty, but its encrypted bitmap marks it, so its free blocks are encrypted. */
  lemma StrayBitmapFails(disk: seq<int>)
    requires |disk| >= 4 && disk[0] == 1 && disk[1] == 0
    ensures
      && Fits(STRAY_BITMAP, disk)
      && Used(PARITY_CODEC, STRAY_BITMAP, disk, 1, 1) && !Used(PARITY_CODEC, STRAY_BITMAP, disk, 2, 2)
      && !BitmapSurvives(PARITY_CODEC, STRAY_BITMAP, disk, 1)
      && !ExactlyOnce(PARITY_CODEC, STRAY_BITMAP, disk, EncryptFirst(PARITY_CODEC, STRAY_BITMAP, disk, 2))
  {
    StrayFits(disk);
    StrayUsed(disk);
    StraySurvival(disk);
    hide EncryptFirst, ExactlyOnce, BitmapSurvives, Fits, Used;
    GroupsExactIffBitmapsSurvive(PARITY_CODEC, STRAY_BITMAP, disk);
  }

  lemma StrayFits<B>(disk: seq<B>)
    requires |disk| >= 4
    ensures Fits(STRAY_BITMAP, disk)
  {
  }

  lemma StrayUsed(disk: seq<int>)
    requires |disk| >= 4 && disk[0] == 1 && disk[1] == 0 && Fits(STRAY_BITMAP, disk)
    ensures Used(PARITY_CODEC, STRAY_BITMAP, disk, 1, 1) && !Used(PARITY_CODEC, STRAY_BITMAP, disk, 2, 2)
  {
    hide Fits, UsedInGroup;
    StrayMark(disk, 0, 1);
    forall i: nat | i < 2
      ensures !UsedInGroup(PARITY_CODEC, STRAY_BITMAP, disk, i, 2)
    {
      StrayMark(disk, i, 2);
    }
  }

  lemma StrayMark(disk: seq<int>, i: nat, b: nat)
    requires |disk| >= 4 && disk[0] == 1 && disk[1] == 0 && i < 2
    ensures UsedInGroup(PARITY_CODEC, STRAY_BITMAP, disk, i, b) <==> i == 0 && b < 2
  {
    hide InGroup, FirstBlock;
    StrayGroup(i, b);
    assert disk[STRAY_BITMAP.bitmapBlocks[i]] == 1 - i;
  }

  lemma StrayGroup(i: nat, b: nat)
    requires i < 2
    ensures FirstBlock(STRAY_BITMAP, i) == 2 * i
    ensures InGroup(STRAY_BITMAP, i, b) <==> 2 * i <= b < 2 * i + 2
  {
  }

  lemma StraySurvival(disk: seq<int>)
    requires |disk| >= 4 && disk[0] == 1 && disk[1] == 0 && Fits(STRAY_BITMAP, disk)
    requires Used(PARITY_CODEC, STRAY_BITMAP, disk, 1, 1)
    ensures !BitmapSurvives(PARITY_CODEC, STRAY_BITMAP, disk, 1)
  {
    hide Fits, Used;
    assert IdealBlock(PARITY_CODEC, STRAY_BITMAP, disk, 1, 1) == 1;
    assert InGroup(STRAY_BITMAP, 1, 2);
  }

  datatype Ext4Result = Refused | Died | Done(sizeAlreadyDone: int)

  /** A write: its first block and its number of blocks. */
  datatype BlockWrite = BlockWrite(offset: nat, count: nat)

  /** Every write stays within one aligned window of BLOCKS_AT_A_TIME blocks. */
  ghost predicate Aligned(writes: seq<BlockWrite>) {
    forall w :: w in writes ==>
      0 < w.count && w.offset / BLOCKS_AT_A_TIME == (w.offset + w.count - 1) / BLOCKS_AT_A_TIME
  }

  /** The pending run, if any, ends at next and lies in one window. */
  ghost predicate RunInWindow(offset: nat, count: nat, next: nat) {
    count > 0 ==> offset + count == next && offset / BLOCKS_AT_A_TIME == (next - 1) / BLOCKS_AT_A_TIME
  }

  /** A run that has not reached the end of its window can take one block more. */
  lemma GrowRun(offset: nat, count: nat, next: nat)
    requires RunInWindow(offset, count, next) && (count > 0 ==> next % BLOCKS_AT_A_TIME != 0)
    ensures RunInWindow(if count == 0 then next else offset, count + 1, next + 1)
  {
  }

  /** A full run ends at the end of its window. */
  lemma FullRun(offset: nat, count: nat, next: nat)
    requires RunInWindow(offset, count, next)
    ensures count == BLOCKS_AT_A_TIME ==> next % BLOCKS_AT_A_TIME == 0
    ensures count <= BLOCKS_AT_A_TIME
  {
  }

  lemma NoRun(offset: nat, next: nat)
    ensures RunInWindow(offset, 0, next)
  {
  }

  lemma AlignedAppend(writes: seq<BlockWrite>, offset: nat, count: nat, next: nat)
    requires Aligned(writes) && RunInWindow(offset, count, next)
    ensures Aligned(writes + if count > 0 then [BlockWrite(offset, count)] else [])
  {
  }

  // ----- Stops on low battery ------------------------------------------------------------------

  /** Where the run of used blocks that is pending before block next starts; next itself if there is none. */
  function RunStart<B>(c: Codec<B>, bitmap: B, first: nat, next: nat): (b: nat)
    requires first <= next
    ensures first <= b <= next
  {
    if next == first || next % BLOCKS_AT_A_TIME == 0 || !Marked(c, bitmap, first, next - 1) then next
    else RunStart(c, bitmap, first, next - 1)
  }

  /** Where the last run that ends at or before block upto starts. */
  function LastRun<B>(c: Codec<B>, bitmap: B, first: nat, upto: nat): Option<nat>
    requires first <= upto
  {
    if upto == first then None
    else if Marked(c, bitmap, first, upto - 1) then Some(RunStart(c, bitmap, first, upto - 1))
    else LastRun(c, bitmap, first, upto - 1)
  }

  /**
   last_written_sector after a flush of a run that starts at block b: the count has been reset before, and a
   block is taken for CRYPT_SECTOR_SIZE sectors.
   */
  function Report(run: Option<nat>, before: int): int {
    match run
    case None => before
    case Some(b) => b * CRYPT_SECTOR_SIZE - 1
  }

  /** The disk and the last written sector after some groups; all blocks before upto have been dealt with. */
  datatype GroupRun<B> = GroupRun(disk: seq<B>, report: int, upto: nat, stopped: bool)

  function StopBlock(l: Layout, i: nat, ok: Battery): nat {
    FirstStop(ok, FirstBlock(l, i), GroupEnd(l, i))
  }

  /** Group i up to the first block after which the battery says stop, whose pending run is not written. */
  function RunGroup<B>(c: Codec<B>, l: Layout, before: GroupRun<B>, i: nat, ok: Battery): (r: GroupRun<B>)
    requires Fits(l, before.disk) && i < |l.bitmapBlocks|
    ensures |r.disk| == |before.disk|
    ensures FirstBlock(l, i) <= r.upto <= GroupEnd(l, i)
  {
    GroupFits(l, before.disk, i);
    FirstStopRange(ok, FirstBlock(l, i), GroupEnd(l, i));
    var bitmap, first, s := before.disk[l.bitmapBlocks[i]], FirstBlock(l, i), StopBlock(l, i, ok);
    var upto := if s < GroupEnd(l, i) then RunStart(c, bitmap, first, s + 1) else s;
    GroupRun(EncryptUsed(c, before.disk, bitmap, first, upto),
             Report(LastRun(c, bitmap, first, upto), before.report), upto, s < GroupEnd(l, i))
  }

  /** The first n groups, until the battery says stop. */
  function RunGroups<B>(c: Codec<B>, l: Layout, disk: seq<B>, n: nat, ok: Battery): (r: GroupRun<B>)
    requires n <= |l.bitmapBlocks| && Fits(l, disk)
    ensures |r.disk| == |disk|
  {
    if n == 0 then GroupRun(disk, 0, l.firstDataBlock, false)
    else
      var before := RunGroups(c, l, disk, n - 1, ok);
      if before.stopped then before else RunGroup(c, l, before, n - 1, ok)
  }

  lemma NoGroups<B>(c: Codec<B>, l: Layout, disk: seq<B>)
    requires Fits(l, disk)
    ensures EncryptFirst(c, l, disk, 0) == disk
  {
  }

  /** Without a stop the run is that of all groups. */
  lemma {:induction false} RunCompletes<B>(c: Codec<B>, l: Layout, disk: seq<B>, n: nat, ok: Battery)
    requires n <= |l.bitmapBlocks| && Fits(l, disk) && !RunGroups(c, l, disk, n, ok).stopped
    ensures RunGroups(c, l, disk, n, ok).disk == EncryptFirst(c, l, disk, n)
    ensures RunGroups(c, l, disk, n, ok).upto == if n == 0 then l.firstDataBlock else GroupEnd(l, n - 1)
  {
    hide EncryptUsed, EncryptFirst, FirstBlock, GroupEnd, FirstStop, RunStart, LastRun, Report, Fits;
    if n == 0 {
      NoGroups(c, l, disk);
    } else {
      RunCompletes(c, l, disk, n - 1, ok);
      GroupDone(c, l, disk, n - 1);
      GroupFits(l, disk, n - 1);
      FirstStopRange(ok, FirstBlock(l, n - 1), GroupEnd(l, n - 1));
    }
  }

  /** After a stop, later groups are not touched. */
  lemma {:induction false} StopIsFinal<B>(c: Codec<B>, l: Layout, disk: seq<B>, i: nat, n: nat, ok: Battery)
    requires i <= n <= |l.bitmapBlocks| && Fits(l, disk) && RunGroups(c, l, disk, i, ok).stopped
    ensures RunGroups(c, l, disk, n, ok) == RunGroups(c, l, disk, i, ok)
  {
    hide RunGroup, Fits;
    if i < n {
      StopIsFinal(c, l, disk, i, n - 1, ok);
    }
  }

  lemma NothingPending<B>(c: Codec<B>, bitmap: B, first: nat, record: int)
    ensures RunStart(c, bitmap, first, first) == first
    ensures Report(LastRun(c, bitmap, first, first), record) == record
  {
  }

  /** What the pending run is: used blocks of one window, as many as there are without a gap. */
  lemma {:induction false} RunStartIs<B>(c: Codec<B>, bitmap: B, first: nat, next: nat)
    requires first <= next
    ensures var r := RunStart(c, bitmap, first, next);
      && AllMarked(c, bitmap, first, r, next)
      && (forall b: nat :: r < b <= next ==> b % 8 != 0)
      && (r == first || r % 8 == 0 || !Marked(c, bitmap, first, r - 1))
  {
    if RunStart(c, bitmap, first, next) != next {
      RunStartIs(c, bitmap, first, next - 1);
    }
  }

  ghost predicate LastMark<B>(c: Codec<B>, bitmap: B, first: nat, u: nat, upto: nat) {
    && first <= u < upto && Marked(c, bitmap, first, u)
    && forall b: nat :: u < b < upto ==> !Marked(c, bitmap, first, b)
  }

  /** The last run is that of the last used block. */
  lemma {:induction false} LastRunIs<B>(c: Codec<B>, bitmap: B, first: nat, upto: nat)
    requires first <= upto
    ensures LastRun(c, bitmap, first, upto) == None
       <==> forall b: nat :: first <= b < upto ==> !Marked(c, bitmap, first, b)
    ensures forall u: nat :: LastMark(c, bitmap, first, u, upto) ==>
      LastRun(c, bitmap, first, upto) == Some(RunStart(c, bitmap, first, u))
  {
    hide RunStart;
    if upto > first && !Marked(c, bitmap, first, upto - 1) {
      LastRunIs(c, bitmap, first, upto - 1);
    }
  }

  lemma RunStartStep<B>(c: Codec<B>, bitmap: B, first: nat, next: nat)
    requires first <= next
    ensures RunStart(c, bitmap, first, next + 1)
         == if (next + 1) % BLOCKS_AT_A_TIME == 0 || !Marked(c, bitmap, first, next) then next + 1
            else RunStart(c, bitmap, first, next)
  {
  }

  lemma MarkedAt<B>(c: Codec<B>, bitmap: B, first: nat, block: nat)
    ensures Marked(c, bitmap, first, first + block) == c.bit(bitmap, block)
  {
  }

  lemma SkipRecord<B>(c: Codec<B>, bitmap: B, first: nat, upto: nat)
    requires first <= upto && !Marked(c, bitmap, first, upto)
    ensures LastRun(c, bitmap, first, upto + 1) == LastRun(c, bitmap, first, upto)
  {
  }

  /** The run that is flushed becomes the last one. */
  lemma LastMarked<B>(c: Codec<B>, bitmap: B, first: nat, next: nat, count: nat)
    requires 0 < count && first + count <= next && AllMarked(c, bitmap, first, next - count, next)
    requires RunStart(c, bitmap, first, next - 1) == next - count
    ensures LastRun(c, bitmap, first, next) == Some(next - count)
  {
    assert Marked(c, bitmap, first, next - 1);
  }

  // ----- The loops themselves ------------------------------------------------------------------

  class EncryptGroupsData<B(0)> {
    const disk: array<B>
    const codec: Codec<B>
    const layout: Layout
    const buffer: array<B>
    var count: nat
    var offset: nat
    var completed: bool
    var lastWrittenSector: int
    ghost var writes: seq<BlockWrite>

    ghost predicate Valid()
      reads this, disk
    {
      disk != buffer && buffer.Length == BLOCKS_AT_A_TIME && Fits(layout, disk[..])
    }

    constructor (disk: array<B>, codec: Codec<B>, layout: Layout)
      requires Fits(layout, disk[..])
      ensures Valid() && this.disk == disk && this.codec == codec && this.layout == layout && fresh(buffer)
      ensures count == 0 && !completed && lastWrittenSector == 0 && writes == []
    {
      this.disk := disk;
      this.codec := codec;
      this.layout := layout;
      count, offset, completed, lastWrittenSector, writes := 0, 0, false, 0, [];
      buffer := new B[BLOCKS_AT_A_TIME];
    }

    /**
     All blocks before next are done or in the pending run: before is the disk at the start of the group, and
     the run consists of used blocks, ends at next and lies in one window.
     */
    ghost predicate Accounted(before: seq<B>, bitmap: B, first: nat, next: nat)
      reads this, disk
    {
      && count <= next && count <= BLOCKS_AT_A_TIME
      && RunInWindow(offset, count, next)
      && AllMarked(codec, bitmap, first, next - count, next)
      && |before| == disk.Length && disk[..] == EncryptUsed(codec, before, bitmap, first, next - count)
      && Aligned(writes)
    }

    /** The pending run is the one that RunStart finds, and what is on record is the last run before it. */
    ghost predicate OnRecord(record: int, bitmap: B, first: nat, next: nat)
      reads this
    {
      && first + count <= next
      && (count > 0 ==> RunStart(codec, bitmap, first, next - 1) == next - count)
      && lastWrittenSector == Report(LastRun(codec, bitmap, first, next - count), record)
    }

    /**
     Read the pending run through the plain device and write it back through the crypto device.  If it is the
     run of a group whose blocks are accounted for up to next, the disk is then up to date there.
     */
    method FlushOutstandingData(ghost before: seq<B>, ghost bitmap: B, ghost first: nat, ghost next: nat,
                                ghost record: int)
      requires Valid() && Accounted(before, bitmap, first, next) && next <= disk.Length
      requires OnRecord(record, bitmap, first, next)
      modifies this`count, this`lastWrittenSector, this`writes, buffer, disk
      ensures Valid() && Accounted(before, bitmap, first, next) && OnRecord(record, bitmap, first, next)
      ensures count == 0
      ensures disk[..] == EncryptRun(codec, old(disk[..]), offset, old(count))
      ensures writes == old(writes) + if old(count) > 0 then [BlockWrite(offset, old(count))] else []
    {
      hide EncryptUsed, EncryptRun, Tiles, Aligned, AllMarked;
      FlushCatchesUp(codec, before, bitmap, first, next, offset, count);
      AlignedAppend(writes, offset, count, next);
      NoneMarked(codec, bitmap, first, next);
      if count == 0 {
        EmptyRun(codec, disk[..], offset);
        return;
      }
      LastMarked(codec, bitmap, first, next, count);
      CopyRun();
      writes := writes + [BlockWrite(offset, count)];
      count := 0;
      lastWrittenSector := (offset + count) * CRYPT_SECTOR_SIZE - 1;
    }

    /** pread64 of the run into the buffer, pwrite64 of the buffer to the crypto device. */
    method CopyRun()
      requires Valid() && count <= BLOCKS_AT_A_TIME && offset + count <= disk.Length
      modifies buffer, disk
      ensures Valid()
      ensures disk[..] == EncryptRun(codec, old(disk[..]), offset, count)
    {
      hide Tiles;
      forall k | 0 <= k < count {
        buffer[k] := disk[offset + k];
      }
      forall k | 0 <= k < count {
        disk[offset + k] := codec.encrypt(offset + k, buffer[k]);
      }
    }

    ghost function Now(upto: nat, stopped: bool): GroupRun<B>
      reads this, disk
    {
      GroupRun(disk[..], lastWrittenSector, upto, stopped)
    }

    /** Between two blocks: no full run is pending, and the pending one is all that has to be. */
    ghost predicate AtBlock(before: seq<B>, record: int, bitmap: B, first: nat, next: nat)
      reads this, disk
    {
      && Accounted(before, bitmap, first, next) && OnRecord(record, bitmap, first, next)
      && (count > 0 ==> count < BLOCKS_AT_A_TIME && next % BLOCKS_AT_A_TIME != 0)
      && RunStart(codec, bitmap, first, next) == next - count
    }

    lemma AtFirstBlock(before: seq<B>, record: int, bitmap: B, first: nat)
      requires Valid() && before == disk[..] && record == lastWrittenSector && count == 0 && Aligned(writes)
      ensures AtBlock(before, record, bitmap, first, first)
    {
      hide EncryptUsed, AllMarked, Aligned, RunStart, LastRun, Report;
      NothingUsedYet(codec, before, bitmap, first);
      NoneMarked(codec, bitmap, first, first);
      NoRun(offset, first);
      NothingPending(codec, bitmap, first, record);
    }

    lemma BetweenBlocks(before: seq<B>, record: int, bitmap: B, first: nat, next: nat)
      requires AtBlock(before, record, bitmap, first, next)
      ensures Accounted(before, bitmap, first, next) && OnRecord(record, bitmap, first, next)
      ensures first <= next && RunStart(codec, bitmap, first, next) == next - count
    {
    }

    /** What has been done before block next. */
    lemma DoneBefore(before: seq<B>, record: int, bitmap: B, first: nat, next: nat)
      requires Accounted(before, bitmap, first, next) && OnRecord(record, bitmap, first, next)
      ensures Aligned(writes) && first + count <= next
      ensures disk[..] == EncryptUsed(codec, before, bitmap, first, next - count)
      ensures lastWrittenSector == Report(LastRun(codec, bitmap, first, next - count), record)
    {
    }

    /** A used block joins the pending run. */
    method JoinRun(ghost before: seq<B>, ghost record: int, ghost bitmap: B, firstBlock: nat, block: nat)
      requires Valid() && AtBlock(before, record, bitmap, firstBlock, firstBlock + block) && codec.bit(bitmap, block)
      modifies this`count, this`offset
      ensures Valid() && Accounted(before, bitmap, firstBlock, firstBlock + block + 1)
      ensures OnRecord(record, bitmap, firstBlock, firstBlock + block + 1)
      ensures RunInWindow(offset, count, firstBlock + block + 1)
      ensures RunStart(codec, bitmap, firstBlock, firstBlock + block) == firstBlock + block + 1 - count
    {
      hide EncryptUsed, Fits, AllMarked, Marked, Aligned, RunInWindow, RunStart, LastRun, Report;
      MarkNext(codec, bitmap, firstBlock, block, firstBlock + block - count);
      GrowRun(offset, count, firstBlock + block);
      if count == 0 {
        offset := firstBlock + block;
      }
      count := count + 1;
      FullRun(offset, count, firstBlock + block + 1);
    }

    /** An unused block ends the pending run. */
    method SkipBlock(ghost before: seq<B>, ghost record: int, ghost bitmap: B, firstBlock: nat, block: nat)
      requires Valid() && firstBlock + block < disk.Length && !codec.bit(bitmap, block)
      requires AtBlock(before, record, bitmap, firstBlock, firstBlock + block)
      modifies this`count, this`lastWrittenSector, this`writes, buffer, disk
      ensures Valid() && Accounted(before, bitmap, firstBlock, firstBlock + block + 1)
      ensures OnRecord(record, bitmap, firstBlock, firstBlock + block + 1) && count == 0
    {
      hide EncryptRun, EncryptUsed, Fits, AllMarked, Marked, Aligned, RunInWindow, RunStart, LastRun, Report;
      var next := firstBlock + block;
      FlushOutstandingData(before, bitmap, firstBlock, next, record);
      MarkNext(codec, bitmap, firstBlock, block, next);
      SkipUnused(codec, before, bitmap, firstBlock, next);
      SkipRecord(codec, bitmap, firstBlock, next);
      NoneMarked(codec, bitmap, firstBlock, next + 1);
      NoRun(offset, next + 1);
    }

    /** One block: after it, a run that is full or has reached the end of its window is flushed. */
    method EncryptBlock(ghost before: seq<B>, ghost record: int, bitmap: B, firstBlock: nat, block: nat)
      requires Valid() && firstBlock + block < disk.Length
      requires AtBlock(before, record, bitmap, firstBlock, firstBlock + block)
      modifies this`count, this`offset, this`lastWrittenSector, this`writes, buffer, disk
      ensures Valid() && AtBlock(before, record, bitmap, firstBlock, firstBlock + block + 1)
    {
      hide Valid, Accounted, EncryptRun, OnRecord, RunStart;
      RunStartStep(codec, bitmap, firstBlock, firstBlock + block);
      MarkedAt(codec, bitmap, firstBlock, block);
      var next := firstBlock + block + 1;
      if codec.bit(bitmap, block) {
        JoinRun(before, record, bitmap, firstBlock, block);
        FullRun(offset, count, next);
      } else {
        SkipBlock(before, record, bitmap, firstBlock, block);
      }
      if next % BLOCKS_AT_A_TIME == 0 || count == BLOCKS_AT_A_TIME {
        FlushOutstandingData(before, bitmap, firstBlock, next, record);
      }
    }

    /** The blocks of a group: collect runs of used blocks and flush them.  On a stop the pending run is dropped. */
    method EncryptBlocks(bitmap: B, firstBlock: nat, blockCount: nat, ok: Battery)
        returns (stopped: bool, ghost upto: nat)
      requires Valid() && Aligned(writes) && count == 0 && firstBlock + blockCount <= disk.Length
      modifies this`count, this`offset, this`lastWrittenSector, this`writes, buffer, disk
      ensures Valid() && Aligned(writes) && firstBlock <= upto
      ensures var end := firstBlock + blockCount;
        var stop := FirstStop(ok, firstBlock, end);
        && (stopped <==> firstBlock <= stop < end)
        && upto == (if firstBlock <= stop < end then RunStart(codec, bitmap, firstBlock, stop + 1) else end)
      ensures disk[..] == EncryptUsed(codec, old(disk[..]), bitmap, firstBlock, upto)
      ensures lastWrittenSector == Report(LastRun(codec, bitmap, firstBlock, upto), old(lastWrittenSector))
    {
      hide EncryptUsed, Valid, Aligned, RunStart, LastRun, FirstStop, Report, Accounted, OnRecord, AtBlock;
      ghost var before, record := disk[..], lastWrittenSector;
      AtFirstBlock(before, record, bitmap, firstBlock);
      FirstStopRange(ok, firstBlock, firstBlock + blockCount);
      var block := 0;
      while block < blockCount
        invariant block <= blockCount && Valid()
        invariant AtBlock(before, record, bitmap, firstBlock, firstBlock + block)
        invariant FirstStop(ok, firstBlock, firstBlock + blockCount)
               == FirstStop(ok, firstBlock + block, firstBlock + blockCount)
      {
        FirstStopStep(ok, firstBlock + block, firstBlock + blockCount);
        EncryptBlock(before, record, bitmap, firstBlock, block);
        if !ok(firstBlock + block) {
          BetweenBlocks(before, record, bitmap, firstBlock, firstBlock + block + 1);
          DoneBefore(before, record, bitmap, firstBlock, firstBlock + block + 1);
          upto := firstBlock + block + 1 - count;
          return true, upto;
        }
        block := block + 1;
      }
      FirstStopStep(ok, firstBlock + block, firstBlock + blockCount);
      BetweenBlocks(before, record, bitmap, firstBlock, firstBlock + block);
      FlushOutstandingData(before, bitmap, firstBlock, firstBlock + block, record);
      DoneBefore(before, record, bitmap, firstBlock, firstBlock + block);
      return false, firstBlock + block;
    }

    /** The body of the loop over groups: read the bitmap and deal with the blocks. */
    method EncryptOneGroup(i: nat, ok: Battery, ghost done: nat) returns (stopped: bool, ghost upto: nat)
      requires Valid() && i < |layout.bitmapBlocks| && Aligned(writes)
      modifies this`count, this`offset, this`lastWrittenSector, this`writes, buffer, disk
      ensures Valid() && Aligned(writes)
      ensures Now(upto, stopped) == RunGroup(codec, layout, old(Now(done, false)), i, ok)
      ensures !stopped ==> disk[..] == EncryptGroup(codec, layout, old(disk[..]), i)
    {
      hide EncryptUsed, FirstBlock, Fits, Aligned, RunStart, LastRun, FirstStop, Report;
      GroupFits(layout, disk[..], i);
      var firstBlock := FirstBlock(layout, i);
      var blockCount := if layout.blocksPerGroup < layout.lenBlocks - firstBlock
                        then layout.blocksPerGroup else layout.lenBlocks - firstBlock;
      var bitmap := disk[layout.bitmapBlocks[i]];
      count := 0;
      FirstStopRange(ok, firstBlock, firstBlock + blockCount);
      stopped, upto := EncryptBlocks(bitmap, firstBlock, blockCount, ok);
    }

    method EncryptGroups(ok: Battery)
      requires Valid() && writes == [] && !completed && lastWrittenSector == 0
      modifies this, buffer, disk
      ensures Valid() && Aligned(writes)
      ensures var run := RunGroups(codec, layout, old(disk[..]), |layout.bitmapBlocks|, ok);
        disk[..] == run.disk && lastWrittenSector == run.report && completed == !run.stopped
      ensures completed ==> disk[..] == EncryptFirst(codec, layout, old(disk[..]), |layout.bitmapBlocks|)
      ensures completed && BitmapsLocal(codec, layout, old(disk[..]))
          ==> ExactlyOnce(codec, layout, old(disk[..]), disk[..])
    {
      hide EncryptGroup, RunGroup, BitmapsLocal, ExactlyOnce, Fits;
      ghost var original, upto := disk[..], layout.firstDataBlock;
      var i := 0;
      while i < |layout.bitmapBlocks|
        invariant i <= |layout.bitmapBlocks| && Valid() && Aligned(writes) && !completed
        invariant Now(upto, false) == RunGroups(codec, layout, original, i, ok)
      {
        var stopped;
        stopped, upto := EncryptOneGroup(i, ok, upto);
        i := i + 1;
        if stopped {
          StopIsFinal(codec, layout, original, i, |layout.bitmapBlocks|, ok);
          return;
        }
      }
      completed := true;
      RunCompletes(codec, layout, original, |layout.bitmapBlocks|, ok);
      if BitmapsLocal(codec, layout, original) {
        LocalBitmapsExact(codec, layout, original);
      }
    }

    /**
     cryptfs_enable_inplace_ext4, with nothing already done: refused when a copy is to be resumed, else what is
     reported as done is the size, or after a stop the last written sector.  With less than 100 used blocks it
     dies at its first block of a division by zero in the progress estimate.
     */
    method EnableInplaceExt4(size: nat, previouslyEncryptedUpto: int, totUsedBlocks: int, ok: Battery)
        returns (r: Ext4Result)
      requires Valid() && writes == [] && !completed && lastWrittenSector == 0
      modifies this, buffer, disk
      ensures Valid() && Aligned(writes)
      ensures r.Refused? <==> previouslyEncryptedUpto > 0
      ensures r.Died? <==>
        previouslyEncryptedUpto <= 0 && layout.bitmapBlocks != [] && -100 < totUsedBlocks < 100
      ensures !r.Done? ==> disk[..] == old(disk[..])
      ensures r.Done? ==>
        var run := RunGroups(codec, layout, old(disk[..]), |layout.bitmapBlocks|, ok);
        disk[..] == run.disk && r.sizeAlreadyDone == if run.stopped then run.report else size
    {
      hide Fits, RunGroups, BitmapsLocal, ExactlyOnce;
      if previouslyEncryptedUpto > 0 {
        return Refused;
      }
      var onePct := if totUsedBlocks < 0 then -(-totUsedBlocks / 100) else totUsedBlocks / 100;
      if onePct == 0 && layout.bitmapBlocks != [] {
        return Died;
      }
      EncryptGroups(ok);
      return Done(if completed then size else lastWrittenSector);
    }
  }
}
