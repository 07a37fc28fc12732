/**
  Where the items of a block lie: the alignment of the first item, the 32-bit size
  computation of the allocation, and what both imply for the item addresses.
*/
module MemLayout {
  import opened Bits

  const CACHE_MAX_BLKNUM: nat := 128
  const CACHE_DEFAULT_ITEMNUM: nat := 512

  // sizeof(struct mem_blk) and sizeof(struct mem_item) depend on the machine.
  datatype Machine = Machine(blkHdr: nat, itemHdr: nat)

  datatype Config = Config(machine: Machine, maxBlk: nat, maxEmpty: nat, itemSize: nat, itemNum: nat)

  // mem_cache_create: zero asks for a default, and item_size is a 32-bit sum.
  function Effective(machine: Machine, maxBlk: nat, maxEmpty: nat, size: nat, itemNum: nat): Config {
    Config(machine,
           if maxBlk == 0 then CACHE_MAX_BLKNUM else maxBlk,
           maxEmpty,
           (size + machine.itemHdr) % 0x1_0000_0000,
           if itemNum == 0 then CACHE_DEFAULT_ITEMNUM else itemNum)
  }

  // x & y on unsigned integers.
  function BitAnd(x: nat, y: nat): nat {
    if x == 0 || y == 0 then 0
    else 2 * BitAnd(x / 2, y / 2) + (if x % 2 == 1 && y % 2 == 1 then 1 else 0)
  }

  function Data(c: Config, blk: nat): nat { blk + c.machine.blkHdr }

  // How far &blk->data is past the masked boundary.
  function Misalignment(c: Config, blk: nat): nat
    requires c.itemSize > 0
  {
    BitAnd(Data(c, blk) % 0x1_0000_0000, c.itemSize - 1)
  }

  // blk->frist, and the item i places after it.
  function First(c: Config, blk: nat): int
    requires c.itemSize > 0
  {
    Data(c, blk) - Misalignment(c, blk) + c.itemSize
  }

  function ItemAddress(c: Config, blk: nat, i: nat): int
    requires c.itemSize > 0
  {
    First(c, blk) + i * c.itemSize
  }

  // The size a block needs, and the size that is asked of malloc.
  function Needed(c: Config): nat { c.machine.blkHdr + c.itemSize * (c.itemNum + 1) }
  function Asked(c: Config): nat { Needed(c) % 0x1_0000_0000 }

  // Item i lies in the data part of its block's allocation.
  ghost predicate Inside(c: Config, blk: nat, i: nat)
    requires c.itemSize > 0
  {
    Data(c, blk) <= ItemAddress(c, blk, i) && ItemAddress(c, blk, i) + c.itemSize <= blk + Asked(c)
  }

  ghost predicate Apart(a: int, b: int, size: nat) { a + size <= b || b + size <= a }

  lemma {:induction false} BitAndBound(x: nat, y: nat)
    ensures BitAnd(x, y) <= y
  {
    if x != 0 && y != 0 {
      BitAndBound(x / 2, y / 2);
    }
  }

  // The mask of one bit less: every bit below the power is kept.
  lemma MaskStep(x: nat, h: nat)
    requires h > 0
    ensures BitAnd(x, 2 * h - 1) == 2 * BitAnd(x / 2, h - 1) + x % 2
  {
    assert (2 * h - 1) / 2 == h - 1 && (2 * h - 1) % 2 == 1;
  }

  lemma DoubleProduct(q: nat, h: nat)
    ensures 2 * (q * h) == q * (2 * h)
  { }

  // With a power of two the mask is the remainder ...
  lemma {:induction false} BitAndPowerOfTwo(x: nat, k: nat) returns (q: nat)
    ensures x == q * Pow2(k) + BitAnd(x, Pow2(k) - 1)
  {
    if k == 0 {
      q := x;
    } else {
      var h := Pow2(k - 1);
      q := BitAndPowerOfTwo(x / 2, k - 1);
      MaskStep(x, h);
      DoubleProduct(q, h);
      assert x == 2 * (x / 2) + x % 2;
    }
  }

  lemma {:induction false} PowerSum(a: nat, b: nat)
    ensures Pow2(a + b) == Pow2(a) * Pow2(b)
  {
    if a > 0 {
      PowerSum(a - 1, b);
    }
  }

  lemma MulGap(k: int, m: nat)
    requires k >= 1
    ensures k * m >= m
  { }

  // ... so the items are aligned to the item size, whatever the width of a pointer.
  lemma PowerOfTwoItemsAreAligned(c: Config, blk: nat, k: nat) returns (q: nat)
    requires k < 32 && c.itemSize == Pow2(k)
    ensures First(c, blk) == (q + 1) * c.itemSize
  {
    var data := Data(c, blk);
    var low, high := data % 0x1_0000_0000, data / 0x1_0000_0000;
    var r := BitAndPowerOfTwo(low, k);
    q := HighPart(high, k, r);
    assert data == high * 0x1_0000_0000 + low;
  }

  // What is above 32 bits is a multiple of the power, too.
  lemma HighPart(high: nat, k: nat, r: nat) returns (q: nat)
    requires k < 32
    ensures (q + 1) * Pow2(k) == high * 0x1_0000_0000 + r * Pow2(k) + Pow2(k)
  {
    var rest, size := Pow2(32 - k), Pow2(k);
    PowWord();
    PowerSum(32 - k, k);
    q := high * rest + r;
    Regroup(high, rest, size, r);
  }

  lemma Regroup(high: nat, rest: nat, size: nat, r: nat)
    ensures (high * rest + r + 1) * size == high * (rest * size) + r * size + size
  {
    var a := high * rest;
    assert (a + r + 1) * size == a * size + r * size + size;
    assert a * size == high * (rest * size);
  }

  lemma ItemsEnd(c: Config, blk: nat)
    requires c.itemSize > 0
    ensures ItemAddress(c, blk, c.itemNum) == blk + Needed(c) - Misalignment(c, blk)
    ensures 0 <= Misalignment(c, blk) < c.itemSize
  {
    BitAndBound(Data(c, blk) % 0x1_0000_0000, c.itemSize - 1);
    OneMore(c.itemNum, c.itemSize);
  }

  lemma OneMore(n: nat, size: nat)
    ensures (n + 1) * size == n * size + size && size * (n + 1) == n * size + size
  { }

  lemma ItemStep(c: Config, blk: nat, i: nat, j: nat)
    requires c.itemSize > 0 && i < j
    ensures ItemAddress(c, blk, i) + c.itemSize <= ItemAddress(c, blk, j)
  {
    MulGap(j - i, c.itemSize);
    ProductGap(i, j, c.itemSize);
  }

  lemma ProductGap(i: nat, j: nat, size: nat)
    requires i < j
    ensures (j - i) * size == j * size - i * size
  { }

  // The last item is outside if the size that was asked for has wrapped.
  lemma LastItemOutside(c: Config, blk: nat)
    requires 0 < c.itemSize < 0x1_0000_0000 && c.itemNum > 0 && Needed(c) >= 0x1_0000_0000
    ensures !Inside(c, blk, c.itemNum - 1)
  {
    ItemsEnd(c, blk);
    OneMore(c.itemNum - 1, c.itemSize);
    assert Asked(c) <= Needed(c) - 0x1_0000_0000;
  }

  // The spare item pays for the alignment, for every item size, as long as the
  // 32-bit size computation does not wrap; and when it wraps the last item is outside.
  lemma ItemsFitExactlyWithoutWrap(c: Config, blk: nat)
    requires 0 < c.itemSize < 0x1_0000_0000 && c.itemNum > 0
    ensures (forall i: nat :: i < c.itemNum ==> Inside(c, blk, i)) <==> Needed(c) < 0x1_0000_0000
  {
    if Needed(c) < 0x1_0000_0000 {
      forall i: nat | i < c.itemNum
        ensures Inside(c, blk, i)
      {
        ItemInside(c, blk, i);
      }
    } else {
      LastItemOutside(c, blk);
    }
  }

  lemma ItemInside(c: Config, blk: nat, i: nat)
    requires c.itemSize > 0 && i < c.itemNum && Needed(c) < 0x1_0000_0000
    ensures Inside(c, blk, i)
  {
    ItemsEnd(c, blk);
    ItemStep(c, blk, i, c.itemNum);
    assert i * c.itemSize >= 0;
  }

  // Items of one block, or of two blocks whose allocations are apart, do not overlap.
  lemma ItemsApart(c: Config, a: nat, i: nat, b: nat, j: nat)
    requires c.itemSize > 0 && Needed(c) < 0x1_0000_0000
    requires i < c.itemNum && j < c.itemNum && (a, i) != (b, j)
    requires a != b ==> Apart(a, b, Asked(c))
    ensures Apart(ItemAddress(c, a, i), ItemAddress(c, b, j), c.itemSize)
  {
    if a == b {
      if i < j { ItemStep(c, a, i, j); } else { ItemStep(c, a, j, i); }
    } else {
      ItemInside(c, a, i);
      ItemInside(c, b, j);
    }
  }

  // Zero asks for a default; every cache has room for something.
  lemma EffectiveLimits(machine: Machine, maxBlk: nat, maxEmpty: nat, size: nat, itemNum: nat)
    ensures var c := Effective(machine, maxBlk, maxEmpty, size, itemNum);
            && c.itemNum > 0 && (itemNum > 0 ==> c.itemNum == itemNum) && (itemNum == 0 ==> c.itemNum == 512)
            && c.maxBlk > 0 && (maxBlk > 0 ==> c.maxBlk == maxBlk) && (maxBlk == 0 ==> c.maxBlk == 128)
            && c.maxEmpty == maxEmpty && c.machine == machine
  { }

  // ---- what the user gets ----

  // mem_cache_alloc hands out the bytes behind the header of an item.
  function UserAddress(c: Config, blk: nat, i: nat): int
    requires c.itemSize > 0
  {
    ItemAddress(c, blk, i) + c.machine.itemHdr
  }

  // The bytes that were asked for are inside the item, header and all, exactly if the 32-bit
  // item size did not wrap.
  lemma UserBytesFitExactly(machine: Machine, maxBlk: nat, maxEmpty: nat, size: nat, itemNum: nat, blk: nat, i: nat)
    requires Effective(machine, maxBlk, maxEmpty, size, itemNum).itemSize > 0
    ensures var c := Effective(machine, maxBlk, maxEmpty, size, itemNum);
            UserAddress(c, blk, i) + size <= ItemAddress(c, blk, i) + c.itemSize <==> size + machine.itemHdr < 0x1_0000_0000
  {
    var n := size + machine.itemHdr;
    assert n % 0x1_0000_0000 <= n && (n % 0x1_0000_0000 == n <==> n < 0x1_0000_0000);
  }

  // So they end before the next item begins, and touch no other item of the block.
  lemma UserBytesEndBeforeNext(machine: Machine, maxBlk: nat, maxEmpty: nat, size: nat, itemNum: nat, blk: nat, i: nat)
    requires Effective(machine, maxBlk, maxEmpty, size, itemNum).itemSize > 0 && size + machine.itemHdr < 0x1_0000_0000
    ensures var c := Effective(machine, maxBlk, maxEmpty, size, itemNum);
            UserAddress(c, blk, i) + size <= ItemAddress(c, blk, i + 1)
  {
    var c := Effective(machine, maxBlk, maxEmpty, size, itemNum);
    UserBytesFitExactly(machine, maxBlk, maxEmpty, size, itemNum, blk, i);
    OneMore(i, c.itemSize);
  }
}
