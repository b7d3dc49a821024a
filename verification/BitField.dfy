/** The bit fields that lidbg_mem.c reads and writes in 32-bit registers. */
module BitField {
  import opened Common

  const WIDTH := 32

  /** A u32 as its bits, the lowest first. */
  type Word = w: seq<bool> | |w| == WIDTH witness seq(WIDTH, _ => false)

  // ----- Operators on words --------------------------------------------------------------------

  function And(a: Word, b: Word): Word {
    seq(WIDTH, k requires 0 <= k < WIDTH => a[k] && b[k])
  }

  function Or(a: Word, b: Word): Word {
    seq(WIDTH, k requires 0 <= k < WIDTH => a[k] || b[k])
  }

  function Not(a: Word): Word {
    seq(WIDTH, k requires 0 <= k < WIDTH => !a[k])
  }

  function ShiftLeft(a: Word, n: nat): Word
    requires n < WIDTH
  {
    seq(WIDTH, k requires 0 <= k < WIDTH => k >= n && a[k - n])
  }

  function ShiftRight(a: Word, n: nat): Word
    requires n < WIDTH
  {
    seq(WIDTH, k requires 0 <= k < WIDTH => k + n < WIDTH && a[k + n])
  }

  const ONE: Word := seq(WIDTH, k => k == 0)

  /** The number that bits stand for. */
  function Value(bits: seq<bool>): nat {
    if bits == [] then 0 else (if bits[0] then 1 else 0) + 2 * Value(bits[1..])
  }

  // ----- Fields --------------------------------------------------------------------------------

  /** The num lowest bits set; a width of 0 wraps around in the code and means all of them. */
  function LowMask(num: nat): Word {
    seq(WIDTH, k => num == 0 || k < num)
  }

  function ReadBits(reg: Word, offset: nat, num: nat): Word
    requires offset < WIDTH
  {
    ShiftRight(And(reg, ShiftLeft(LowMask(num), offset)), offset)
  }

  function WriteBits(reg: Word, offset: nat, num: nat, value: Word): Word
    requires offset < WIDTH
  {
    Or(And(reg, Not(ShiftLeft(LowMask(num), offset))), ShiftLeft(And(value, LowMask(num)), offset))
  }

  predicate FieldFits(offset: nat, num: nat) {
    1 <= num && offset + num <= WIDTH
  }

  /** The mask loop, whose bound num - 1 wraps around for 0. */
  method MaskLoop(num: nat) returns (mark: Word)
    requires num < 0x1_0000_0000
    ensures mark == LowMask(num)
  {
    mark := ONE;
    var bound := (num + 0xFFFF_FFFF) % 0x1_0000_0000;
    var i := 0;
    while i < bound
      invariant i <= bound
      invariant mark == LowMask(i + 1)
    {
      mark := Or(ShiftLeft(mark, 1), ONE);
      i := i + 1;
    }
  }

  class Register {
    var value: Word

    constructor (value: Word)
      ensures this.value == value
    {
      this.value := value;
    }

    method WriteAddrBit(offset: nat, num: nat, bits: Word)
      requires offset < WIDTH && num < 0x1_0000_0000
      modifies this
      ensures value == WriteBits(old(value), offset, num, bits)
    {
      var mark := MaskLoop(num);
      var temp := value;
      temp := Or(And(temp, Not(ShiftLeft(mark, offset))), ShiftLeft(And(bits, mark), offset));
      value := temp;
    }

    method ReadAddrBit(offset: nat, num: nat) returns (bits: Word)
      requires offset < WIDTH && num < 0x1_0000_0000
      ensures bits == ReadBits(value, offset, num)
    {
      var mark := MaskLoop(num);
      bits := ShiftRight(And(value, ShiftLeft(mark, offset)), offset);
    }
  }

  // ----- Properties ----------------------------------------------------------------------------

  /** Clearing all but the n lowest bits takes the number modulo 2^n. */
  lemma {:induction false} ClearedValue(bits: seq<bool>, cleared: seq<bool>, n: nat)
    requires |bits| == |cleared|
    requires forall k :: 0 <= k < |bits| ==> cleared[k] == (k < n && bits[k])
    ensures Value(cleared) == Value(bits) % Pow2(n)
  {
    if bits != [] {
      var low := if bits[0] then 1 else 0;
      if n == 0 {
        ClearedValue(bits[1..], cleared[1..], 0);
      } else {
        ClearedValue(bits[1..], cleared[1..], n - 1);
        DoubleModulo(Value(bits[1..]), Pow2(n - 1), low);
      }
    } else {
      assert 0 % Pow2(n) == 0;
    }
  }

  lemma DoubleModulo(x: nat, p: nat, low: nat)
    requires p >= 1 && low < 2
    ensures (low + 2 * x) % (2 * p) == low + 2 * (x % p)
  {
    var q, r := x / p, x % p;
    assert low + 2 * x == (2 * p) * q + (low + 2 * r);
    QuotientUnique(low + 2 * x, 2 * p, q, low + 2 * r);
  }

  lemma MultipleGrows(d: nat, k: int)
    ensures k >= 1 ==> d * k >= d
    ensures k <= -1 ==> d * k + d <= 0
  {
  }

  lemma QuotientUnique(x: nat, d: nat, q: nat, r: nat)
    requires x == d * q + r && r < d
    ensures x % d == r
  {
    var k: int := x / d;
    assert d * (k - q) == r - x % d;
    MultipleGrows(d, k - q);
  }

  lemma {:induction false} OnesValue(bits: seq<bool>, n: nat)
    requires n <= |bits| && forall k :: 0 <= k < |bits| ==> bits[k] == (k < n)
    ensures Value(bits) == Pow2(n) - 1
  {
    if bits != [] {
      OnesValue(bits[1..], if n == 0 then 0 else n - 1);
    }
  }

  /** The mask of a field is 2^num - 1. */
  lemma MaskValue(num: nat)
    requires 1 <= num <= WIDTH
    ensures Value(LowMask(num)) == Pow2(num) - 1
  {
    hide Value;
    OnesValue(LowMask(num), num);
  }

  /** A read after a write gives the value modulo 2^num, and no bit outside the field changes. */
  lemma ReadAfterWrite(reg: Word, offset: nat, num: nat, value: Word)
    requires FieldFits(offset, num)
    ensures var reg' := WriteBits(reg, offset, num, value);
      && Value(ReadBits(reg', offset, num)) == Value(value) % Pow2(num)
      && forall k :: 0 <= k < WIDTH && !(offset <= k < offset + num) ==> reg'[k] == reg[k]
  {
    ClearedValue(value, ReadBits(WriteBits(reg, offset, num, value), offset, num), num);
  }

  /** Writes to disjoint fields commute, and neither disturbs a read of the other. */
  lemma DisjointWrites(reg: Word, offset1: nat, num1: nat, v1: Word, offset2: nat, num2: nat, v2: Word)
    requires FieldFits(offset1, num1) && FieldFits(offset2, num2)
    requires offset1 + num1 <= offset2 || offset2 + num2 <= offset1
    ensures WriteBits(WriteBits(reg, offset1, num1, v1), offset2, num2, v2)
         == WriteBits(WriteBits(reg, offset2, num2, v2), offset1, num1, v1)
    ensures ReadBits(WriteBits(reg, offset1, num1, v1), offset2, num2) == ReadBits(reg, offset2, num2)
  {
  }
}
