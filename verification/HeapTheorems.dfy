/** What the heap invariant means for the two lists a reader would walk: regions and free lists. */
module HeapTheorems {
  import opened Basics
  import opened HeapSizes
  import opened HeapSpec
  import opened KernelHeap
  import opened PageCalls

  // ---------------------------------------------------------------- regions

  /** The blocks met by following page_flink from `h`. */
  ghost function Walk(heap: Heap, h: Header): (s: seq<Header>)
    requires heap.Tiled() && h in heap.blocks
    reads heap, heap.blocks
    ensures |s| > 0 && s[0] == h && forall x <- s :: x in heap.blocks
    decreases if h.base in heap.mapped then heap.Limit(h.base) - h.addr else 0
  {
    assert heap.Tile(h);
    if h.pageFlink == null then [h] else
      assert heap.Tile(h.pageFlink);
      [h] + Walk(heap, h.pageFlink)
  }

  ghost function TotalSize(s: seq<Header>): int
    reads s
  {
    if s == [] then 0 else s[0].size + TotalSize(s[1..])
  }

  /** Neighbours of the walk are neighbours in memory and in both page links. */
  ghost predicate Adjacent(s: seq<Header>, i: nat)
    requires i + 1 < |s|
    reads s
  {
    s[i].pageFlink == s[i + 1] && s[i + 1].pageBlink == s[i] && s[i].addr + s[i].size == s[i + 1].addr
  }

  lemma {:induction false} WalkTiles(heap: Heap, h: Header)
    requires heap.Tiled() && h in heap.blocks
    ensures var s := Walk(heap, h);
      && (forall i {:trigger Adjacent(s, i)} :: 0 <= i < |s| - 1 ==> Adjacent(s, i))
      && h.base in heap.mapped && TotalSize(s) == heap.Limit(h.base) - h.addr
      && s[|s| - 1].pageFlink == null
      && forall x <- heap.blocks :: x in s <==> x.base == h.base && h.addr <= x.addr
    decreases if h.base in heap.mapped then heap.Limit(h.base) - h.addr else 0
  {
    var s := Walk(heap, h);
    assert heap.Tile(h);
    if h.pageFlink == null {
      forall x | x in heap.blocks ensures x in s <==> x.base == h.base && h.addr <= x.addr {
        assert heap.Tile(x) && heap.Apart(h, x);
      }
      assert TotalSize(s) == h.size + TotalSize(s[1..]);
    } else {
      var n: Header := h.pageFlink;
      assert heap.Tile(n);
      WalkTiles(heap, n);
      var t := Walk(heap, n);
      assert s == [h] + t && s[1..] == t;
      forall i | 0 <= i < |s| - 1 ensures Adjacent(s, i) {
        if i > 0 { assert Adjacent(t, i - 1); }
      }
      forall x | x in heap.blocks ensures x in s <==> x.base == h.base && h.addr <= x.addr {
        assert heap.Tile(x) && heap.Apart(h, x);
        assert x in s <==> x == h || x in t;
      }
    }
  }

  /** Every region is a doubly linked list of its blocks in address order, without gap or overlap, whose sizes add up
      to the region, with no two unused blocks side by side. */
  lemma RegionIsTiled(heap: Heap, b: nat)
    requires heap.Valid() && b in heap.mapped
    ensures b in heap.headers
    ensures var s := Walk(heap, heap.headers[b]);
      && s[0].addr == b && s[0].pageBlink == null && s[|s| - 1].pageFlink == null
      && TotalSize(s) == heap.mapped[b] * PAGE_SIZE
      && (forall i {:trigger Adjacent(s, i)} :: 0 <= i < |s| - 1 ==> Adjacent(s, i) && (s[i].used || s[i + 1].used))
      && forall x <- heap.blocks :: x in s <==> x.base == b
  {
    assert heap.RegionOk(b);
    var h := heap.headers[b];
    WalkTiles(heap, h);
    var s := Walk(heap, h);
    assert heap.Tile(h);
    assert h.pageBlink != null ==> heap.Tile(h.pageBlink);
    forall i | 0 <= i < |s| - 1 ensures Adjacent(s, i) && (s[i].used || s[i + 1].used) {
      assert Adjacent(s, i) && heap.Coalesced(s[i]);
    }
    forall x | x in heap.blocks ensures x in s <==> x.base == b { assert heap.Tile(x); }
  }

  /** Two payloads in use share no byte, and no payload overlaps a header. */
  lemma PayloadsDisjoint(heap: Heap, x: Header, y: Header, i: nat, j: nat)
    requires heap.Valid() && x in heap.live && y in heap.blocks && x != y
    requires i < x.reqSize && j < y.size
    ensures x.addr + HEADER + i != y.addr + j
  {
    assert heap.Settled(x) && heap.Apart(x, y);
  }

  // ---------------------------------------------------------------- free lists

  /** The blocks met by following flink from `h`. */
  ghost function Chain(heap: Heap, h: Header): (s: seq<Header>)
    requires heap.Linked() && h in heap.listed
    reads heap, heap.listed, heap.freeBlocks
    ensures |s| > 0 && s[0] == h && forall x <- s :: x in heap.listed
    decreases h.stamp
  {
    assert heap.Node(h);
    if h.flink == null then [h] else [h] + Chain(heap, h.flink)
  }

  ghost predicate Linked(s: seq<Header>, i: nat)
    requires i + 1 < |s|
    reads s
  {
    s[i].flink == s[i + 1] && s[i + 1].blink == s[i] && s[i + 1].stamp < s[i].stamp
  }

  lemma {:induction false} ChainIsComplete(heap: Heap, h: Header)
    requires heap.Linked() && h in heap.listed
    ensures var s := Chain(heap, h);
      && (forall i {:trigger Linked(s, i)} :: 0 <= i < |s| - 1 ==> Linked(s, i))
      && s[|s| - 1].flink == null
      && forall x <- heap.listed :: x in s <==> x.index == h.index && x.stamp <= h.stamp
    decreases h.stamp
  {
    var s := Chain(heap, h);
    assert heap.Node(h);
    if h.flink == null {
      forall x | x in heap.listed ensures x in s <==> x.index == h.index && x.stamp <= h.stamp {
        assert heap.Ordered(x, h);
      }
    } else {
      var n: Header := h.flink;
      ChainIsComplete(heap, n);
      var t := Chain(heap, n);
      assert s == [h] + t;
      forall i | 0 <= i < |s| - 1 ensures Linked(s, i) {
        if i > 0 { assert Linked(t, i - 1); }
      }
      forall x | x in heap.listed ensures x in s <==> x.index == h.index && x.stamp <= h.stamp {
        assert heap.Ordered(x, h);
        assert x in s <==> x == h || x in t;
      }
    }
  }

  ghost function FreeList(heap: Heap, k: nat): seq<Header>
    requires heap.Valid() && k < CLASSES
    reads heap, heap.blocks, heap.listed, heap.freeBlocks, heap.mem
  {
    if heap.freeBlocks[k] == null then [] else
      assert heap.Head(k);
      Chain(heap, heap.freeBlocks[k])
  }

  /** free_blocks[k] is an acyclic doubly linked list, newest block first, of exactly the unused blocks of class k;
      a block in use has both links null. */
  lemma FreeListIsExact(heap: Heap, k: nat)
    requires heap.Valid() && k < CLASSES
    ensures var s := FreeList(heap, k);
      && (forall i {:trigger Linked(s, i)} :: 0 <= i < |s| - 1 ==> Linked(s, i))
      && (s != [] ==> s[0].blink == null && s[|s| - 1].flink == null)
      && (forall x <- heap.blocks :: HEADER < x.size <= LARGEST)
      && (forall x <- heap.blocks :: x in s <==> !x.used && ClassOf(x.size - HEADER) == k)
    ensures forall x <- heap.blocks :: x.used ==> x.flink == null && x.blink == null
  {
    var s := FreeList(heap, k);
    assert heap.Head(k);
    if s != [] { ChainIsComplete(heap, heap.freeBlocks[k]); }
    forall x | x in heap.blocks
      ensures HEADER < x.size <= LARGEST && (x in s <==> !x.used && ClassOf(x.size - HEADER) == k)
      ensures x.used ==> x.flink == null && x.blink == null
    {
      assert heap.Settled(x) && heap.Tile(x);
      if x in heap.listed {
        assert heap.Node(x);
        if heap.freeBlocks[k] != null { assert heap.Ordered(heap.freeBlocks[k], x); }
      }
    }
  }

  /** A listed block without page neighbours is a whole region, so complete_pages[0] counts free regions. */
  lemma WholeIsFreeRegion(heap: Heap, h: Header)
    requires heap.Valid() && h in heap.blocks
    ensures heap.Tile(h)
    ensures h in heap.Whole() <==> !h.used && h.addr == h.base && h.addr + h.size == heap.Limit(h.base)
  {
    assert heap.Tile(h) && heap.Settled(h);
    assert h.pageFlink != null ==> heap.Tile(h.pageFlink);
    assert h.pageBlink != null ==> heap.Tile(h.pageBlink);
  }

  /** The free blocks that fill a region of the heap. */
  ghost function FreeRegions(heap: Heap): set<Header>
    requires heap.Valid()
    reads heap, heap.blocks, heap.listed, heap.freeBlocks, heap.mem
  {
    set h | h in heap.blocks && !h.used && h.addr == h.base
      && h.base in heap.mapped && h.addr + h.size == heap.Limit(h.base)
  }

  /** While all requests fit one page, complete_pages[0] counts the free regions, each of one page and in list 0. */
  lemma CompletePagesExact(heap: Heap)
    requires heap.Valid() && heap.Tallied() && heap.small
    ensures heap.completePages[0] == |FreeRegions(heap)| <= MAX_COMPLETE
    ensures forall h <- FreeRegions(heap) :: h.size == PAGE_SIZE && h in FreeList(heap, 0)
  {
    forall h | h in heap.blocks ensures h in FreeRegions(heap) <==> h in heap.Whole() {
      WholeIsFreeRegion(heap, h);
      assert heap.Tile(h);
    }
    forall h | h in heap.Whole() ensures h in heap.blocks { }
    assert FreeRegions(heap) == heap.Whole();
    forall h | h in FreeRegions(heap) ensures h.size == PAGE_SIZE && h in FreeList(heap, 0) {
      assert heap.RegionOk(h.base) && heap.mapped[h.base] == 1;
      FreeListIsExact(heap, 0);
      ClassBracket(PAGE_SIZE - HEADER, 0);
    }
  }

  /** Along a free list the stamps fall. */
  lemma {:induction false} StampsFall(heap: Heap, h: Header, i: nat, j: nat)
    requires heap.Linked() && h in heap.listed && i < j < |Chain(heap, h)|
    ensures Chain(heap, h)[j].stamp < Chain(heap, h)[i].stamp
    decreases j
  {
    ChainIsComplete(heap, h);
    assert Linked(Chain(heap, h), j - 1);
    if i < j - 1 { StampsFall(heap, h, i, j - 1); }
  }

  /** The block that serves a request is the first in the list of its class that has room for it. */
  lemma FirstFitIs(heap: Heap, size: nat, i: nat)
    requires heap.Valid() && 1 <= size <= LARGEST && i < |FreeList(heap, ClassOf(size))|
    ensures var s := FreeList(heap, ClassOf(size));
      heap.NewestFit(s[i], size) <==> size + HEADER <= s[i].size && forall j :: 0 <= j < i ==> s[j].size < size + HEADER
  {
    var k := ClassOf(size);
    var s := FreeList(heap, k);
    var h: Header := heap.freeBlocks[k];
    assert heap.Head(k);
    ChainIsComplete(heap, h);
    forall x | x in heap.listed && x.index == k ensures x in s {
      assert heap.Node(x) && heap.Ordered(h, x);
    }
    forall a, b | 0 <= a < b < |s| ensures s[b].stamp < s[a].stamp { StampsFall(heap, h, a, b); }
    forall x | x in s ensures heap.Fits(x, size) <==> size + HEADER <= x.size { }
    if heap.NewestFit(s[i], size) {
      forall j | 0 <= j < i ensures s[j].size < size + HEADER { assert s[j] in s && !heap.Fits(s[j], size); }
    }
  }

  // ---------------------------------------------------------------- the cache of whole regions

  /** A request that a whole free region serves takes one off the count of its class. */
  method Retake(heap: Heap, x: Header, size: nat) returns (out: Outcome)
    requires heap.Valid() && heap.Tallied() && 0 < size && size + HEADER <= LARGEST
    requires heap.NewestFit(x, size) && x.pageFlink == null && x.pageBlink == null
    modifies heap, heap.freeBlocks, heap.completePages, heap.mem, heap.blocks
    ensures out.Ptr? ==> out.p == x.addr + HEADER
    ensures out.Ptr? ==> heap.completePages[ClassOf(size)] == (old(heap.completePages[ClassOf(size)]) + 255) % 256
    ensures !out.Panic? && heap.trace == old(heap.trace)
  {
    hide Balance, Heap.Valid, Heap.NewestFit, Heap.ReuseEvents, Heap.Fitting, Heap.BareRemainder, Heap.LeftBare;
    ghost var k := ClassOf(size);
    ServedWhole(heap, x, size);
    BalanceNext(heap.cache, Out(k), k);
    NewestIs(heap, x, size);
    ghost var calls;
    out, calls := heap.Kmalloc(size);
  }

  lemma ServedWhole(heap: Heap, x: Header, size: nat)
    requires 1 <= size <= LARGEST && heap.NewestFit(x, size) && x.pageFlink == null && x.pageBlink == null
    ensures heap.Fitting(size) && heap.ReuseEvents(size) == [Out(ClassOf(size))]
  {
    assert heap.Fits(x, size) && heap.Alone(x);
  }

  /** There is one newest block that fits. */
  lemma NewestIs(heap: Heap, x: Header, size: nat)
    requires heap.Valid() && 1 <= size <= LARGEST && heap.NewestFit(x, size)
    ensures forall a <- heap.headers :: heap.NewestFit(heap.headers[a], size) ==> a == x.addr
  {
    forall a | a in heap.headers && heap.NewestFit(heap.headers[a], size) ensures a == x.addr {
      assert heap.Ordered(x, heap.headers[a]) && heap.Ordered(heap.headers[a], x);
    }
  }

  /** A block that fills its region is freed: the region stays if fewer than five of its class did, else it goes. */
  method FreeWhole(heap: Heap, p: nat, k: nat)
    requires heap.Valid() && heap.Tallied() && heap.WholeLive(p, k) && heap.completePages[k] <= 5
    modifies heap, heap.freeBlocks, heap.completePages, heap.blocks
    ensures heap.Valid() && heap.Tallied() && heap.blocks <= old(heap.blocks)
    ensures heap.Contents() == old(heap.Contents()) - {p}
    ensures heap.completePages[k] == Min(old(heap.completePages[k]) + 1, 5)
    ensures heap.trace == old(heap.trace) + if old(heap.completePages[k]) == 5 then [Unmap(p - HEADER)] else []
    ensures heap.mapped == old(heap.mapped) - if old(heap.completePages[k]) == 5 then {p - HEADER} else {}
  {
    ghost var c := heap.completePages[k];
    assert heap.Tile(heap.headers[p - HEADER]) && heap.headers[p - HEADER].addr == p - HEADER;
    assert heap.FreeEvents(p) == if c == 5 then [] else [In(k)];
    assert heap.FreeCalls(p) == if c == 5 then [Unmap(p - HEADER)] else [];
    assert heap.Returned(p) == if c == 5 then {p - HEADER} else {};
    BalanceNext(heap.cache, In(k), k);
    hide Balance, Heap.Valid, Heap.WholeLive, Heap.FreeEvents, Heap.FreeCalls, Heap.Returned;
    heap.Free(p);
    assert heap.cache == if c == 5 then old(heap.cache) else old(heap.cache) + [In(k)];
  }

  /** The same, and all other blocks that fill their regions still do. */
  method FreeOne(heap: Heap, p: nat, k: nat)
    requires heap.Valid() && heap.Tallied() && heap.WholeLive(p, k) && heap.completePages[k] <= 5
    modifies heap, heap.freeBlocks, heap.completePages, heap.blocks
    ensures heap.Valid() && heap.Tallied() && heap.blocks <= old(heap.blocks)
    ensures heap.completePages[k] == Min(old(heap.completePages[k]) + 1, 5)
    ensures heap.trace == old(heap.trace) + if old(heap.completePages[k]) == 5 then [Unmap(p - HEADER)] else []
    ensures forall q :: q != p && old(heap.WholeLive(q, k)) ==> heap.WholeLive(q, k)
  {
    assert heap.completePages.Length == CLASSES;
    FreeWhole(heap, p, k);
    forall q | q != p && old(heap.WholeLive(q, k)) ensures heap.WholeLive(q, k) {
      assert q in old(heap.Contents()) && q in heap.Contents();
      heap.WholeStays(q);
    }
  }

  /** The calls of page_unmap for the blocks from number `i` to `n - 1`. */
  ghost function Unmaps(ps: seq<nat>, i: nat, n: nat): seq<PageCall>
    requires n <= |ps| && forall j :: 0 <= j < |ps| ==> HEADER <= ps[j]
    decreases n
  {
    if n <= i then [] else Unmaps(ps, i, n - 1) + [Unmap(ps[n - 1] - HEADER)]
  }

  lemma LivePointers(heap: Heap, ps: seq<nat>, k: nat)
    requires forall j :: 0 <= j < |ps| ==> heap.WholeLive(ps[j], k)
    ensures forall j :: 0 <= j < |ps| ==> HEADER <= ps[j]
  {
  }

  lemma UnmapsNext(ps: seq<nat>, i: nat, n: nat)
    requires n < |ps| && forall j :: 0 <= j < |ps| ==> HEADER <= ps[j]
    ensures Unmaps(ps, i, 0) == []
    ensures Unmaps(ps, i, n + 1) == Unmaps(ps, i, n) + if n < i then [] else [Unmap(ps[n] - HEADER)]
  {
  }

  /**
   * Blocks of one class that fill their regions are freed one after the other, when `c` regions of the class were kept
   * before: the first 5 - c regions are kept, and page_unmap is called for each of the others.
   */
  method FreeAll(heap: Heap, ps: seq<nat>, k: nat)
    requires heap.Valid() && heap.Tallied() && (forall j :: 0 <= j < |ps| ==> heap.WholeLive(ps[j], k))
    requires (forall i, j :: 0 <= i < j < |ps| ==> ps[i] != ps[j]) && k < CLASSES && heap.completePages[k] <= 5
    modifies heap, heap.freeBlocks, heap.completePages, heap.blocks
    ensures heap.Valid() && heap.Tallied() && heap.completePages[k] == Min(old(heap.completePages[k]) + |ps|, 5)
    ensures (forall j :: 0 <= j < |ps| ==> HEADER <= ps[j])
      && heap.trace == old(heap.trace) + Unmaps(ps, 5 - old(heap.completePages[k]), |ps|)
  {
    assert heap.completePages.Length == CLASSES;
    LivePointers(heap, ps, k);
    ghost var c, trace := heap.completePages[k], heap.trace;
    assert Unmaps(ps, 5 - c, 0) == [];
    hide Heap.Valid, Heap.Tallied, Unmaps, Heap.WholeLive;
    for n := 0 to |ps|
      invariant heap.Valid() && heap.Tallied() && heap.blocks <= old(heap.blocks)
      invariant heap.completePages[k] == Min(c + n, 5)
      invariant heap.trace == trace + Unmaps(ps, 5 - c, n)
      invariant forall i :: n <= i < |ps| ==> heap.WholeLive(ps[i], k)
    {
      UnmapsNext(ps, 5 - c, n);
      FreeOne(heap, ps[n], k);
    }
  }

  /** When a free region of one page is the newest block that fits, a request of 4032 bytes leaves a bare header. */
  lemma BareHeaderWitness(heap: Heap, x: Header)
    requires heap.Valid() && heap.NewestFit(x, 4032) && x.size == PAGE_SIZE
    ensures heap.Fitting(4032) && heap.BareRemainder(4032)
  {
    assert heap.Fits(x, 4032);
  }

  /** Without a listed block that fits, a request leaves a bare header exactly 64 bytes short of whole pages. */
  lemma BareWithoutBlock(heap: Heap, size: nat)
    requires 0 < size && size + HEADER <= LARGEST && !heap.Fitting(size)
    ensures heap.BareRemainder(size) <==> (size + HEADER + HEADER) % PAGE_SIZE == 0
  {
    var n := (size + HEADER + HEADER) / PAGE_SIZE;
    PageCountIsCeiling(size + HEADER, n);
  }

  /** So on a new heap the request of 4032 bytes does, whenever page_map delivers the page. */
  lemma BareHeaderOnNewHeap(heap: Heap)
    requires heap.listed == {}
    ensures !heap.Fitting(4032) && heap.BareRemainder(4032)
  {
    BareWithoutBlock(heap, 4032);
  }

  // ---------------------------------------------------------------- requests that never return

  /** The size-class loop does not end for this many pages. */
  ghost predicate Endless(pages: nat) {
    forall index: nat :: ByteShift(index) <= pages
  }

  /**
   * kmalloc computes two classes: that of the request, and, when no listed block fits, that of the new region
   * (line 129). Both computations end exactly for the requests that Kmalloc accepts.
   */
  lemma KmallocEnds(heap: Heap, size: nat)
    requires heap.Valid() && 0 < size && size + HEADER <= MEMORY
    ensures size + HEADER <= LARGEST <==> (!Endless(PageCount(size)) && (
      || !Endless(PageCount(PageCount(size + HEADER) * PAGE_SIZE - HEADER))
      || (size <= LARGEST && heap.Fitting(size))))
  {
    LoopNeverStops(PageCount(size));
    LoopNeverStops(PageCount(PageCount(size + HEADER) * PAGE_SIZE - HEADER));
    RegionClass(size);
    forall x | x in heap.listed ensures x.size <= LARGEST {
      assert heap.Settled(x) && heap.Tile(x) && heap.RegionOk(x.base);
    }
  }

  lemma RegionClass(size: nat)
    requires 0 < size
    ensures size + HEADER <= LARGEST <==> PageCount(PageCount(size + HEADER) * PAGE_SIZE - HEADER) < PAGE_LIMIT
    ensures size <= LARGEST <==> PageCount(size) < PAGE_LIMIT
  {
    PageCountIsCeiling(size + HEADER, PAGE_LIMIT - 1);
    PageCountIsCeiling(size, PAGE_LIMIT - 1);
    var n := PageCount(size + HEADER);
    PageCountIsCeiling(n * PAGE_SIZE - HEADER, n - 1);
    PageCountIsCeiling(n * PAGE_SIZE - HEADER, n);
  }
}
