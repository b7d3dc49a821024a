/** Shared value types, powers of two, and the battery that can stop an encryption. */
module Common {

  datatype Option<+T> = None | Some(value: T)

  newtype byte = b: int | 0 <= b < 256

  function Pow2(k: nat): (p: nat)
    ensures p >= 1
  {
    if k == 0 then 1 else 2 * Pow2(k - 1)
  }

  lemma {:induction false} Pow2Monotone(j: nat, k: nat)
    requires j <= k
    ensures Pow2(j) <= Pow2(k)
  {
    if j < k {
      Pow2Monotone(j, k - 1);
    }
  }

  /** Whether the battery allows going on after each block. */
  type Battery = nat -> bool

  /** The first block at or after i after which the battery says stop, or the number of blocks. */
  function FirstStop(ok: Battery, i: nat, numblocks: nat): nat
    decreases numblocks - i
  {
    if i >= numblocks then numblocks else if !ok(i) then i else FirstStop(ok, i + 1, numblocks)
  }

  lemma FirstStopStep(ok: Battery, i: nat, numblocks: nat)
    ensures FirstStop(ok, i, numblocks)
         == if i >= numblocks then numblocks else if !ok(i) then i else FirstStop(ok, i + 1, numblocks)
  {
  }

  /** It stops after the first block after which the battery is low, and only then. */
  lemma {:induction false} StopsAtFirstLow(ok: Battery, i: nat, numblocks: nat)
    requires i <= numblocks
    ensures var s := FirstStop(ok, i, numblocks);
      && i <= s <= numblocks && (s < numblocks ==> !ok(s))
      && forall j: nat :: i <= j < s ==> ok(j)
    decreases numblocks - i
  {
    if i < numblocks && ok(i) {
      StopsAtFirstLow(ok, i + 1, numblocks);
    }
  }

  lemma {:induction false} FirstStopRange(ok: Battery, i: nat, numblocks: nat)
    requires i <= numblocks
    ensures i <= FirstStop(ok, i, numblocks) <= numblocks
    decreases numblocks - i
  {
    if i < numblocks {
      FirstStopRange(ok, i + 1, numblocks);
    }
  }
}
