/** Page counts and size classes of the kernel heap (Memory/heap.c, Memory/heap.h). */
module HeapSizes {
  import opened Basics

  /** sizeof(heap_header_t) on the 32-bit target */
  const HEADER: nat := 32
  const CLASSES: nat := 20
  const MAX_COMPLETE: nat := 5
  const MEMORY: nat := 0x1_0000_0000
  /** The size-class loop stops only below this many pages. */
  const PAGE_LIMIT: nat := 128
  /** The largest block for which the class can be computed: 127 pages. */
  const LARGEST: nat := 0x7F000

  /** `PageCount` is the least number of pages that holds `length` bytes. */
  lemma PageCountIsCeiling(length: nat, n: nat)
    ensures length <= PageCount(length) * PAGE_SIZE < length + PAGE_SIZE
    ensures length <= n * PAGE_SIZE <==> PageCount(length) <= n
  {
  }

  lemma PagesOfRequest(size: nat)
    requires 0 < size && size + HEADER <= LARGEST
    ensures 1 <= PageCount(size + HEADER) < PAGE_LIMIT
    ensures size + HEADER <= PageCount(size + HEADER) * PAGE_SIZE <= LARGEST
  {
  }

  function Pow2(n: nat): (p: nat)
    ensures p >= 1
  {
    if n == 0 then 1 else 2 * Pow2(n - 1)
  }

  /** The value of (uint8_t)(1 << n), with the shift count taken modulo 32 as the hardware does. */
  function ByteShift(n: nat): nat {
    Pow2(n % 32) % 256
  }

  lemma {:induction false} Pow2Monotone(m: nat, n: nat)
    requires m <= n
    ensures Pow2(m) <= Pow2(n)
  {
    if m < n {
      Pow2Monotone(m, n - 1);
    }
  }

  lemma Pow2Values()
    ensures Pow2(0) == 1 && Pow2(1) == 2 && Pow2(2) == 4 && Pow2(3) == 8 && Pow2(4) == 16
    ensures Pow2(5) == 32 && Pow2(6) == 64 && Pow2(7) == 128 && Pow2(8) == 256
  {
    assert Pow2(2) == 4;
    assert Pow2(4) == 16;
    assert Pow2(6) == 64;
  }

  lemma {:induction false} ByteShiftPastSeven(n: nat)
    requires 8 <= n
    ensures Pow2(n) % 256 == 0
  {
    Pow2Values();
    if n > 8 {
      ByteShiftPastSeven(n - 1);
    }
  }

  lemma {:induction false} ByteShiftSmall(n: nat)
    requires n <= 7
    ensures ByteShift(n) == Pow2(n) <= 128
  {
    Pow2Monotone(n, 7);
    assert Pow2(n) <= 128 by { Pow2Values(); }
    assert n % 32 == n;
  }

  /** From 128 pages on the guard of the size-class loop is true for every index: the loop never stops. */
  lemma LoopNeverStops(pages: nat)
    ensures pages >= PAGE_LIMIT <==> forall index: nat :: ByteShift(index) <= pages
  {
    forall index: nat ensures ByteShift(index) <= 128 { ByteShiftAtMost(index); }
    ByteShiftReached();
  }

  lemma ByteShiftAtMost(index: nat)
    ensures ByteShift(index) <= 128
  {
    if index % 32 <= 7 { ByteShiftSmall(index % 32); } else { ByteShiftPastSeven(index % 32); }
  }

  lemma ByteShiftReached()
    ensures ByteShift(7) == 128
  {
    Pow2Values();
  }

  /** Two classes bracketing the same page count are equal, so the bracket defines the class. */
  lemma ClassIsUnique(pages: nat, i: nat, j: nat)
    requires Pow2(i) <= pages < Pow2(i + 1)
    requires Pow2(j) <= pages < Pow2(j + 1)
    ensures i == j
  {
    if i < j { Pow2Monotone(i + 1, j); }
    if j < i { Pow2Monotone(j + 1, i); }
  }

  /** The size class of a payload of `size` bytes. */
  ghost function ClassOf(size: nat): (k: nat)
    requires 1 <= size <= LARGEST
    ensures k < 7
  {
    if size <= 0x1000 then 0
    else if size <= 0x3000 then 1
    else if size <= 0x7000 then 2
    else if size <= 0xF000 then 3
    else if size <= 0x1F000 then 4
    else if size <= 0x3F000 then 5
    else 6
  }

  /** Class k holds 2^k up to 2^(k+1) - 1 pages. */
  lemma ClassBracket(size: nat, k: nat)
    requires 1 <= size <= LARGEST
    ensures Pow2(k) <= PageCount(size) < Pow2(k + 1) <==> k == ClassOf(size)
  {
    Pow2Values();
    if Pow2(k) <= PageCount(size) < Pow2(k + 1) {
      ClassIsUnique(PageCount(size), k, ClassOf(size));
    }
  }

  lemma PageCountRange(size: nat)
    ensures PageCount(size) == 0 <==> size == 0
    ensures PageCount(size) < PAGE_LIMIT <==> size <= LARGEST
    ensures PageCount(size) > 0x100000 <==> size > MEMORY
  {
  }

  /** heap_get_index: 2^index <= pages < 2^(index+1), and 255 for an empty payload. */
  method GetIndex(size: nat) returns (index: nat)
    requires size <= LARGEST || size > MEMORY
    ensures size == 0 || size > MEMORY ==> index == 255
    ensures 0 < size <= LARGEST ==> index == ClassOf(size)
  {
    var pages := PageCount(size);
    PageCountRange(size);
    if pages > 0x100000 { return 255; }
    assert Pow2(7) == 128 by { Pow2Values(); }
    index := 0;
    ByteShiftSmall(0);
    while ByteShift(index) <= pages
      invariant index <= 7 && ByteShift(index) == Pow2(index)
      invariant index > 0 ==> Pow2(index - 1) <= pages
      decreases 7 - index
    {
      index := index + 1;
      ByteShiftSmall(index);
    }
    if size > 0 {
      ClassBracket(size, index - 1);
    }
    index := if index == 0 then 255 else index - 1;
  }
}
