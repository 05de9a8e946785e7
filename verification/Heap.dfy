/** The kernel heap (Memory/heap.c): headers threaded through a region list and a size-class free list. */
module KernelHeap {
  import opened Basics
  import opened HeapSizes
  import opened HeapSpec
  import opened PageCalls

  /** heap_header_t. `addr` is where the header lives; `base` is the start of the region that contains it. */
  class Header {
    const addr: nat
    ghost const base: nat
    var reqSize: nat
    var size: nat
    var index: nat
    var used: bool
    var flink: Header?
    var blink: Header?
    var pageFlink: Header?
    var pageBlink: Header?
    /** When the header was last put in a free list. */
    ghost var stamp: nat

    constructor (addr: nat, ghost base: nat)
      ensures this.addr == addr && this.base == base
      ensures flink == null && blink == null && pageFlink == null && pageBlink == null && !used
      ensures index == 0
    {
      this.addr, this.base := addr, base;
      reqSize, size, index, used := 0, 0, 0, false;
      flink, blink, pageFlink, pageBlink := null, null, null, null;
    }
  }

  /** What kmalloc does: return NULL, return a pointer, stop in panic(), or write free_blocks[255]. */
  datatype Outcome = Null | Ptr(p: nat) | Panic | Wild

  /** How an operation of a client ends: it returns, page_map panics, or free_blocks[255] is written. */
  datatype Ending = Done | Panicked | WroteWild

  function EndOf(out: Outcome): Ending {
    match out
    case Panic => Panicked
    case Wild => WroteWild
    case _ => Done
  }

  /** What happens to whole free regions: one of class `k` is listed by free, or one is taken by kmalloc. */
  datatype CacheEvent = In(k: nat) | Out(k: nat)

  /** How many more regions of class `k` came in than went out. */
  ghost function Balance(es: seq<CacheEvent>, k: nat): int {
    if es == [] then 0 else
      var e := es[|es| - 1];
      Balance(es[..|es| - 1], k) + if e == In(k) then 1 else if e == Out(k) then -1 else 0
  }

  /** One more event, counted in 8 bits. */
  lemma BalanceNext(es: seq<CacheEvent>, e: CacheEvent, k: nat)
    ensures var b := Balance(es, k) % 256;
      Balance(es + [e], k) % 256 == if e == In(k) then (b + 1) % 256 else if e == Out(k) then (b + 255) % 256 else b
  {
    assert (es + [e])[..|es|] == es;
  }

  class Heap {
    /** free_blocks and complete_pages */
    const freeBlocks: array<Header?>
    const completePages: array<nat>
    /** The bytes of memory; of a header's bytes only the signature is kept here. */
    const mem: array<byte>
    /** The header to be found at each address that holds one, and the regions got from page_map (base to pages). */
    var headers: map<nat, Header>
    var mapped: map<nat, nat>

    ghost var blocks: set<Header>
    /** The blocks that are in some free list, and the number of insertions so far. */
    ghost var listed: set<Header>
    ghost var clock: nat
    /** The blocks in use, and whether every request so far fitted a one-page region. */
    ghost var live: set<Header>
    ghost var small: bool
    /** The calls of page_map and page_unmap so far; only PageMap and PageUnmap add to it. */
    ghost var trace: seq<PageCall>
    /** What happened to whole free regions so far. */
    ghost var cache: seq<CacheEvent>

    // ---------------------------------------------------------------- the invariant

    ghost predicate Here(h: Header)
      reads this`headers
    {
      h.addr in headers && headers[h.addr] == h
    }

    /** The ghost set of blocks is what the header addresses say. */
    ghost predicate Known()
      reads this`headers, this`blocks
    {
      && freeBlocks.Length == CLASSES && completePages.Length == CLASSES && mem.Length == MEMORY
      && (forall h {:trigger Here(h)} :: h in blocks ==> Here(h))
      && (forall a {:trigger headers[a]} :: a in headers ==> headers[a] in blocks && headers[a].addr == a)
    }

    ghost predicate RegionOk(b: nat)
      reads this`headers, this`mapped
    {
      && b in mapped && 0 < b && b % PAGE_SIZE == 0 && 1 <= mapped[b] < PAGE_LIMIT
      && b + mapped[b] * PAGE_SIZE <= MEMORY
      && b in headers && headers[b].base == b
    }

    ghost function Limit(b: nat): nat
      requires b in mapped
      reads this`mapped
    {
      b + mapped[b] * PAGE_SIZE
    }

    /** `h` lies in its region and its two page links name its neighbours in address order. */
    ghost predicate Tile(h: Header)
      requires h in blocks
      reads this`blocks, this`mapped, blocks`size, blocks`pageFlink, blocks`pageBlink
    {
      && h.base in mapped && mapped[h.base] < PAGE_LIMIT
      && HEADER < h.size && h.base <= h.addr && h.addr + h.size <= Limit(h.base)
      && (h.pageFlink == null ==> h.addr + h.size == Limit(h.base))
      && (h.pageFlink != null ==>
            h.pageFlink in blocks && h.pageFlink.pageBlink == h
            && h.pageFlink.addr == h.addr + h.size && h.pageFlink.base == h.base)
      && (h.pageBlink == null ==> h.addr == h.base)
      && (h.pageBlink != null ==>
            h.pageBlink in blocks && h.pageBlink.pageFlink == h
            && h.pageBlink.addr + h.pageBlink.size == h.addr && h.pageBlink.base == h.base)
    }

    ghost predicate Apart(x: Header, y: Header)
      reads x`size, y`size
    {
      x == y || x.addr + x.size <= y.addr || y.addr + y.size <= x.addr
    }

    /** Every region is tiled by its blocks. */
    ghost predicate Tiled()
      reads this`blocks, this`headers, this`mapped, blocks`size, blocks`pageFlink, blocks`pageBlink
    {
      && (forall b {:trigger RegionOk(b)} :: b in mapped ==> RegionOk(b))
      && (forall h {:trigger Tile(h)} :: h in blocks ==> Tile(h))
      && (forall x, y {:trigger Apart(x, y)} :: x in blocks && y in blocks ==> Apart(x, y))
    }

    /** `h` is in the free list of class `h.index`; its links name its neighbours, newest first. */
    ghost predicate Node(h: Header)
      requires freeBlocks.Length == CLASSES
      reads this`listed, this`clock, freeBlocks, listed`flink, listed`blink, listed`index, listed`stamp
    {
      && h in listed && h.index < CLASSES && h.stamp < clock
      && (h.flink != null ==>
            h.flink in listed && h.flink.blink == h && h.flink.index == h.index && h.flink.stamp < h.stamp)
      && (h.blink != null ==> h.blink in listed && h.blink.flink == h && h.blink.index == h.index)
      && (h.blink == null ==> freeBlocks[h.index] == h)
      && freeBlocks[h.index] != null
    }

    ghost predicate Head(k: nat)
      requires k < CLASSES == freeBlocks.Length
      reads this`listed, freeBlocks, listed`blink, listed`index
    {
      freeBlocks[k] != null ==> freeBlocks[k] in listed && freeBlocks[k].index == k && freeBlocks[k].blink == null
    }

    /** Of two blocks of one class `x` is older; then `y` has a successor, which is no older than `x`. */
    ghost predicate Ordered(x: Header, y: Header)
      requires x in listed && y in listed
      reads this`listed, listed`flink, listed`blink, listed`index, listed`stamp
    {
      x.index == y.index && x != y ==>
        && x.stamp != y.stamp
        && (x.stamp < y.stamp ==>
              x.blink != null && y.flink != null && y.flink in listed && x.stamp <= y.flink.stamp)
    }

    /** free_blocks and the links through flink and blink form one list per class over `listed`. */
    ghost predicate Linked()
      reads this`listed, this`clock, freeBlocks, listed`flink, listed`blink, listed`index, listed`stamp
    {
      && freeBlocks.Length == CLASSES
      && (forall h {:trigger Node(h)} :: h in listed ==> Node(h))
      && (forall k {:trigger Head(k)} :: 0 <= k < CLASSES ==> Head(k))
      && (forall x, y {:trigger Ordered(x, y)} :: x in listed && y in listed ==> Ordered(x, y))
    }

    /** init_heap */
    constructor ()
      ensures Valid() && Tallied() && small
      ensures Contents() == imap[] && blocks == {} && listed == {} && mapped == map[] && trace == [] && cache == []
      ensures fresh(freeBlocks) && fresh(completePages) && fresh(mem)
    {
      freeBlocks := new Header?[CLASSES](_ => null);
      completePages := new nat[CLASSES](_ => 0);
      mem := new byte[MEMORY](_ => 0);
      headers, mapped := map[], map[];
      blocks, listed, live, clock, small, trace, cache := {}, {}, {}, 0, true, [], [];
    }

    // ---------------------------------------------------------------- free-list operations

    /** The pointer writes of an insertion at the head of list `k`. */
    twostate predicate Pushed(k: nat)
      requires k < CLASSES == freeBlocks.Length
      reads this`listed, this`clock, freeBlocks, listed`flink, listed`blink, listed`index, listed`stamp
    {
      var h := freeBlocks[k];
      && h != null && listed == old(listed) + {h} && clock == old(clock) + 1
      && h !in old(listed) && h.index == k && h.stamp == old(clock)
      && h.flink == old(freeBlocks[k]) && h.blink == null
      && (forall j :: 0 <= j < CLASSES && j != k ==> freeBlocks[j] == old(freeBlocks[j]))
      && (forall b <- old(listed) ::
            && b.index == old(b.index) && b.stamp == old(b.stamp) && b.flink == old(b.flink)
            && b.blink == (if b == h.flink then h else old(b.blink)))
    }

    twostate lemma PushKeepsNodes(k: nat)
      requires k < CLASSES == freeBlocks.Length
      requires old(Linked()) && Pushed(k)
      ensures forall h {:trigger Node(h)} :: h in listed ==> Node(h)
    {
      assert old(Head(k));
      var first := old(freeBlocks[k]);
      assert first != null ==> old(Node(first));
      forall x | x in listed ensures Node(x) {
        if x in old(listed) { assert old(Node(x)); }
      }
    }

    twostate lemma PushKeepsOrder(k: nat)
      requires k < CLASSES == freeBlocks.Length
      requires old(Linked()) && Pushed(k)
      ensures forall x, y {:trigger Ordered(x, y)} :: x in listed && y in listed ==> Ordered(x, y)
    {
      var h := freeBlocks[k];
      var first := old(freeBlocks[k]);
      assert old(Head(k));
      forall x, y | x in listed && y in listed ensures Ordered(x, y) {
        if x in old(listed) { assert old(Node(x)); }
        if y in old(listed) { assert old(Node(y)); }
        if x in old(listed) && y in old(listed) {
          assert old(Ordered(x, y));
        } else if x in old(listed) && first != null {
          assert old(Ordered(x, first)) && old(Ordered(first, x));
        }
      }
    }

    /** heap_insert_unused_header */
    method InsertUnused(h: Header)
      requires Linked() && h !in listed && h.blink == null
      requires HEADER < h.size <= LARGEST
      modifies this`listed, this`clock, freeBlocks, listed`flink, listed`blink, h`flink, h`index, h`stamp
      ensures h.index == ClassOf(h.size - HEADER)
      ensures listed == old(listed) + {h}
      ensures h.stamp == old(clock) < clock
      ensures Linked()
    {
      var index := GetIndex(h.size - HEADER);
      assert Head(index);
      h.index := index;
      if freeBlocks[h.index] != null {
        assert Node(freeBlocks[h.index]);
        freeBlocks[h.index].blink := h;
      }
      h.flink := freeBlocks[h.index];
      freeBlocks[h.index] := h;
      h.stamp := clock;
      clock := clock + 1;
      listed := listed + {h};
      PushKeepsNodes(index);
      PushKeepsOrder(index);
      forall k | 0 <= k < CLASSES ensures Head(k) { assert old(Head(k)); }
    }

    /** The pointer writes that take `h` out of its list. */
    twostate predicate Popped(h: Header)
      requires freeBlocks.Length == CLASSES && h in old(listed)
      reads this`listed, this`clock, freeBlocks, listed`flink, listed`blink, listed`index, listed`stamp
    {
      && listed == old(listed) - {h} && clock == old(clock)
      && (forall j :: 0 <= j < CLASSES ==>
            freeBlocks[j] == if old(freeBlocks[j]) == h then old(h.flink) else old(freeBlocks[j]))
      && (forall b <- listed ::
            && b.index == old(b.index) && b.stamp == old(b.stamp)
            && b.flink == (if b == old(h.blink) then old(h.flink) else old(b.flink))
            && b.blink == (if b == old(h.flink) then old(h.blink) else old(b.blink)))
    }

    twostate lemma PopKeepsNodes(h: Header)
      requires freeBlocks.Length == CLASSES && h in old(listed)
      requires old(Linked()) && Popped(h)
      ensures forall x {:trigger Node(x)} :: x in listed ==> Node(x)
    {
      assert old(Node(h));
      assert old(h.flink) != null ==> old(Node(h.flink));
      assert old(h.blink) != null ==> old(Node(h.blink));
      forall x | x in listed ensures Node(x) {
        assert old(Node(x)) && old(Ordered(x, h)) && old(Ordered(h, x));
        assert old(Head(x.index));
      }
    }

    twostate lemma PopKeepsOrder(h: Header)
      requires freeBlocks.Length == CLASSES && h in old(listed)
      requires old(Linked()) && Popped(h)
      ensures forall x, y {:trigger Ordered(x, y)} :: x in listed && y in listed ==> Ordered(x, y)
    {
      assert old(Node(h));
      assert old(h.flink) != null ==> old(Node(h.flink));
      forall x, y | x in listed && y in listed ensures Ordered(x, y) {
        assert old(Node(x)) && old(Node(y));
        assert old(Ordered(x, y)) && old(Ordered(x, h)) && old(Ordered(h, y)) && old(Ordered(y, h));
      }
    }

    /** heap_remove_header */
    method RemoveHeader(h: Header)
      requires Linked() && h in listed
      modifies this`listed, freeBlocks, listed`flink, listed`blink
      ensures listed == old(listed) - {h}
      ensures h.flink == null && h.blink == null
      ensures Linked()
    {
      assert Node(h);
      assert h.flink != null ==> Node(h.flink);
      assert h.blink != null ==> Node(h.blink);
      forall k | 0 <= k < CLASSES && k != h.index ensures freeBlocks[k] != h { assert Head(k); }
      if h.flink != null { h.flink.blink := h.blink; }
      if h.blink != null { h.blink.flink := h.flink; }
      if freeBlocks[h.index] == h { freeBlocks[h.index] := h.flink; }
      h.flink, h.blink := null, null;
      listed := listed - {h};
      PopKeepsNodes(h);
      PopKeepsOrder(h);
      forall k | 0 <= k < CLASSES ensures Head(k) { assert old(Head(k)); }
    }

    // ---------------------------------------------------------------- the page list

    /** The writes by which block `l` takes over its right neighbour. */
    twostate predicate Merged(l: Header)
      requires l in old(blocks) && old(l.pageFlink) in old(blocks)
      reads this`headers, this`blocks, this`mapped, blocks`size, blocks`pageFlink, blocks`pageBlink
    {
      var r: Header := old(l.pageFlink);
      && l != r && blocks == old(blocks) - {r} && headers == old(headers) - {r.addr} && mapped == old(mapped)
      && l.size == old(l.size) + old(r.size)
      && l.pageFlink == old(r.pageFlink) && l.pageBlink == old(l.pageBlink)
      && (forall b <- blocks :: b != l ==>
            && b.size == old(b.size) && b.pageFlink == old(b.pageFlink)
            && b.pageBlink == (if b == old(r.pageFlink) then l else old(b.pageBlink)))
    }

    twostate lemma MergeKeepsTiles(l: Header)
      requires l in old(blocks) && old(l.pageFlink) in old(blocks)
      requires old(Known()) && old(Tiled()) && Merged(l)
      ensures Known() && Tiled()
    {
      var r: Header := old(l.pageFlink);
      assert old(Tile(l)) && old(Tile(r)) && old(Here(r));
      forall h | h in blocks ensures Here(h) && Tile(h) {
        assert old(Here(h)) && old(Tile(h));
      }
      forall b | b in mapped ensures RegionOk(b) {
        assert old(RegionOk(b));
      }
      forall x, y | x in blocks && y in blocks ensures Apart(x, y) {
        assert old(Apart(x, y)) && old(Apart(r, y)) && old(Apart(x, r));
      }
    }

    /** The writes that cut a new right neighbour off `h`. */
    twostate predicate Cut(h: Header)
      requires h in old(blocks)
      reads this`headers, this`blocks, this`mapped, blocks`size, blocks`pageFlink, blocks`pageBlink
    {
      h in blocks && h.pageFlink in blocks &&
      var n: Header := h.pageFlink;
      && n !in old(blocks) && blocks == old(blocks) + {n} && headers == old(headers)[n.addr := n]
      && mapped == old(mapped)
      && n.base == h.base && n.addr == h.addr + h.size && h.size + n.size == old(h.size)
      && n.pageFlink == old(h.pageFlink) && n.pageBlink == h && h.pageBlink == old(h.pageBlink)
      && (forall b <- old(blocks) :: b != h ==>
            && b.size == old(b.size) && b.pageFlink == old(b.pageFlink)
            && b.pageBlink == (if b == old(h.pageFlink) then n else old(b.pageBlink)))
    }

    twostate lemma CutIsFresh(h: Header)
      requires h in old(blocks)
      requires old(Known()) && old(Tiled()) && Cut(h) && HEADER < h.size && HEADER < h.pageFlink.size
      ensures h.pageFlink.addr !in old(headers)
    {
      assert old(Tile(h));
      forall a | a in old(headers) ensures a != h.pageFlink.addr {
        var x: Header := old(headers[a]);
        assert old(Apart(h, x)) && old(Tile(x));
      }
    }

    twostate lemma CutKeepsApart(h: Header)
      requires h in old(blocks)
      requires old(Tiled()) && Cut(h)
      ensures forall x, y {:trigger Apart(x, y)} :: x in blocks && y in blocks ==> Apart(x, y)
    {
      var n: Header := h.pageFlink;
      assert forall x <- old(blocks) :: old(Apart(x, h)) && old(Apart(h, x));
      forall x, y | x in blocks && y in blocks ensures Apart(x, y) {
        if x != n && y != n { assert old(Apart(x, y)); }
      }
    }

    twostate lemma CutKeepsTiles(h: Header)
      requires h in old(blocks)
      requires old(Known()) && old(Tiled()) && Cut(h) && HEADER < h.size && HEADER < h.pageFlink.size
      ensures Known() && Tiled()
    {
      var n: Header := h.pageFlink;
      CutIsFresh(h);
      CutKeepsApart(h);
      assert old(Tile(h));
      forall x | x in blocks ensures Here(x) && Tile(x) {
        if x != n { assert old(Here(x)) && old(Tile(x)); }
      }
      forall b | b in mapped ensures RegionOk(b) {
        assert old(RegionOk(b));
      }
    }

    /** The writes shared by heap_melt_left and heap_eat_right: `l` takes over its right neighbour. */
    method Absorb(l: Header)
      requires Known() && Tiled() && l in blocks && l.pageFlink != null
      modifies this`headers, this`blocks, l`size, l`pageFlink, blocks`pageBlink
      ensures old(l.pageFlink) in old(blocks) && Merged(l)
      ensures Known() && Tiled()
    {
      var r: Header := l.pageFlink;
      assert Tile(l) && Tile(r);
      assert r.pageFlink != null ==> Tile(r.pageFlink);
      l.size := l.size + r.size;
      if r.pageFlink != null {
        r.pageFlink.pageBlink := l;
      }
      l.pageFlink := r.pageFlink;
      headers := headers - {r.addr};
      blocks := blocks - {r};
      MergeKeepsTiles(l);
    }

    // ---------------------------------------------------------------- the whole invariant

    /** A used block is in no list and wastes less than a header; an unused one is in the list of its class. */
    ghost predicate Settled(h: Header)
      reads this`listed, this`live, h`used, h`reqSize, h`size, h`index, h`flink, h`blink
    {
      if h.used then
        && h in live && h !in listed && h.flink == null && h.blink == null
        && 0 < h.reqSize && h.reqSize + HEADER <= h.size < h.reqSize + HEADER + HEADER
      else
        h !in live && h in listed && HEADER < h.size <= LARGEST && h.index == ClassOf(h.size - HEADER)
    }

    /** An unused block has no unused right neighbour. */
    ghost predicate Coalesced(h: Header)
      reads h`used, h`pageFlink, if h.pageFlink == null then {} else {h.pageFlink}`used
    {
      !h.used && h.pageFlink != null ==> h.pageFlink.used
    }

    /** HEAP_SIGNATURE (0xB00B5555, little endian) stands at `a`. */
    predicate Signature(a: nat)
      requires a + 4 <= mem.Length
      reads mem
    {
      mem[a] == 0x55 && mem[a + 1] == 0x55 && mem[a + 2] == 0x0B && mem[a + 3] == 0xB0
    }

    ghost predicate Signed(h: Header)
      reads mem
    {
      h.addr + 4 <= mem.Length && Signature(h.addr)
    }

    /** The heap invariant, except for what it says of block `x` itself. */
    ghost predicate ValidBut(x: Header?)
      reads this, blocks, listed, freeBlocks, mem
    {
      && Known() && Tiled() && Linked() && listed <= blocks && live <= blocks
      && (forall h {:trigger Settled(h)} :: h in blocks && h != x ==> Settled(h))
      && (forall h {:trigger Coalesced(h)} :: h in blocks && h != x && h.pageFlink in blocks && h.pageFlink != x ==>
            Coalesced(h))
      && (forall h {:trigger Signed(h)} :: h in blocks ==> Signed(h))
    }

    ghost predicate Valid()
      reads this, blocks, listed, freeBlocks, mem
    {
      ValidBut(null)
    }

    /** `h` has no neighbour in its region. */
    ghost predicate Alone(h: Header)
      reads h`pageFlink, h`pageBlink
    {
      h.pageFlink == null && h.pageBlink == null
    }

    /** The listed blocks that make up a region of their own. */
    ghost function Whole(): set<Header>
      reads this`listed, listed`pageFlink, listed`pageBlink
    {
      set h | h in listed && h.pageFlink == null && h.pageBlink == null
    }

    /** `h` is being freed: unused, but not yet in a list. */
    ghost predicate Pending(h: Header)
      reads this, h, blocks, listed, freeBlocks, mem
    {
      ValidBut(h) && h in blocks && !h.used && h !in live && h !in listed && h.flink == null && h.blink == null
    }

    /** A merge that leaves both blocks out of the lists keeps the invariant around them. */
    twostate lemma MergeKeepsValid(l: Header)
      requires l in old(blocks) && old(l.pageFlink) in old(blocks) && !l.used
      requires old(ValidBut(l)) || old(ValidBut(l.pageFlink))
      requires Merged(l) && Known() && Tiled() && Linked()
      requires live == old(live) && l !in live && old(l.pageFlink) !in live
      requires listed == old(listed) - {l, old(l.pageFlink)}
      requires forall b <- blocks ::
        && b.used == old(b.used) && b.index == old(b.index) && b.reqSize == old(b.reqSize)
        && (b !in old(listed) ==> b.flink == old(b.flink) && b.blink == old(b.blink))
      requires unchanged(mem)
      ensures ValidBut(l)
    {
      var r: Header := old(l.pageFlink);
      forall h | h in blocks && h != l ensures Settled(h) {
        assert old(Settled(h));
      }
      forall h | h in blocks && h != l && h.pageFlink in blocks && h.pageFlink != l ensures Coalesced(h) {
        assert old(Tile(h)) && old(Tile(r)) && old(Coalesced(h));
      }
      forall h | h in blocks ensures Signed(h) { assert old(Signed(h)); }
    }

    twostate lemma MergeKeepsWhole(l: Header)
      requires l in old(blocks) && old(l.pageFlink) in old(blocks)
      requires old(Tiled()) && old(listed) <= old(blocks) && Merged(l)
      requires listed == old(listed) - {l, old(l.pageFlink)}
      ensures Whole() == old(Whole())
    {
      var r: Header := old(l.pageFlink);
      assert old(Tile(l)) && old(Tile(r));
    }

    /** One round of either merging loop: `l` takes over its right neighbour; `free` is the one of the two in a list. */
    method Merge(l: Header, free: Header)
      requires l in blocks && l.pageFlink != null
      requires (Pending(l) && free == l.pageFlink) || (Pending(l.pageFlink) && free == l)
      requires free in blocks && !free.used
      modifies this`headers, this`blocks, this`listed, freeBlocks
      modifies blocks`size, blocks`pageFlink, blocks`pageBlink, blocks`flink, blocks`blink
      ensures Pending(l)
      ensures blocks == old(blocks) - {old(l.pageFlink)}
      ensures l.pageFlink == old(l.pageFlink.pageFlink) && l.pageBlink == old(l.pageBlink)
      ensures forall b <- blocks :: b != l ==> b.size == old(b.size) && b.pageFlink == old(b.pageFlink)
      ensures Whole() == old(Whole())
    {
      hide Whole, Coalesced, Signed;
      assert Tile(l) && Settled(free);
      Absorb(l);
      RemoveHeader(free);
      MergeKeepsValid(l);
      MergeKeepsWhole(l);
    }

    /** Merging leaves nothing to the left of `h`: no neighbour, or an unused one without a neighbour of its own. */
    ghost predicate LeftEnd(h: Header)
      reads h`pageBlink, if h.pageBlink == null then {} else {h.pageBlink}`used
      reads if h.pageBlink == null then {} else {h.pageBlink}`pageBlink
    {
      h.pageBlink == null || (!h.pageBlink.used && h.pageBlink.pageBlink == null)
    }

    ghost predicate RightEnd(h: Header)
      reads h`pageFlink, if h.pageFlink == null then {} else {h.pageFlink}`used
      reads if h.pageFlink == null then {} else {h.pageFlink}`pageFlink
    {
      h.pageFlink == null || (!h.pageFlink.used && h.pageFlink.pageFlink == null)
    }

    /** One round of heap_melt_left. */
    method MergeLeft(freed: Header) returns (header: Header)
      requires Pending(freed) && freed.pageBlink != null && !freed.pageBlink.used
      modifies this`headers, this`blocks, this`listed, freeBlocks
      modifies blocks`size, blocks`pageFlink, blocks`pageBlink, blocks`flink, blocks`blink
      ensures Pending(header) && header.base == freed.base
      ensures header.pageBlink == null || header.pageBlink.used
      ensures header.pageBlink == null <==> old(LeftEnd(freed))
      ensures RightEnd(header) == old(RightEnd(freed))
      ensures forall b <- old(blocks) :: b.used ==> b in blocks && b.size == old(b.size)
      ensures blocks <= old(blocks) && Whole() == old(Whole())
    {
      ghost var r, l := freed, freed.pageBlink;
      assert Tile(r) && Tile(l);
      assert l.pageBlink != null ==> Tile(l.pageBlink) && Coalesced(l.pageBlink);
      header := freed.pageBlink;
      Merge(header, header);
    }

    /** heap_melt_left */
    method MeltLeft(freed: Header) returns (header: Header, ghost rounds: nat)
      requires Pending(freed)
      modifies this`headers, this`blocks, this`listed, freeBlocks
      modifies blocks`size, blocks`pageFlink, blocks`pageBlink, blocks`flink, blocks`blink
      ensures Pending(header) && rounds <= 1 && header.base == freed.base
      ensures header.pageBlink == null || header.pageBlink.used
      ensures header.pageBlink == null <==> old(LeftEnd(freed))
      ensures RightEnd(header) == old(RightEnd(freed))
      ensures forall b <- old(blocks) :: b.used ==> b in blocks && b.size == old(b.size)
      ensures blocks <= old(blocks)
      ensures Whole() == old(Whole())
    {
      header, rounds := freed, 0;
      while header.pageBlink != null && !header.pageBlink.used
        invariant Pending(header) && rounds <= 1 && header.base == freed.base
        invariant rounds == 0 ==> header == freed && LeftEnd(header) == old(LeftEnd(freed))
        invariant rounds == 1 ==> header.pageBlink == null || header.pageBlink.used
        invariant rounds == 1 ==> (header.pageBlink == null <==> old(LeftEnd(freed)))
        invariant RightEnd(header) == old(RightEnd(freed))
        invariant forall b <- old(blocks) :: b.used ==> b in blocks && b.size == old(b.size)
        invariant blocks <= old(blocks)
        invariant Whole() == old(Whole())
        decreases 1 - rounds
      {
        header := MergeLeft(header);
        rounds := rounds + 1;
      }
    }

    /** heap_eat_right */
    method EatRight(header: Header) returns (ghost rounds: nat)
      requires Pending(header)
      requires header.pageBlink == null || header.pageBlink.used
      modifies this`headers, this`blocks, this`listed, freeBlocks
      modifies blocks`size, blocks`pageFlink, blocks`pageBlink, blocks`flink, blocks`blink
      ensures Pending(header) && rounds <= 1
      ensures header.pageFlink == null || header.pageFlink.used
      ensures header.pageBlink == null || header.pageBlink.used
      ensures header.pageBlink == old(header.pageBlink) && (header.pageFlink == null <==> old(RightEnd(header)))
      ensures forall b <- old(blocks) :: b.used ==> b in blocks && b.size == old(b.size)
      ensures blocks <= old(blocks)
      ensures Whole() == old(Whole())
    {
      rounds := 0;
      while header.pageFlink != null && !header.pageFlink.used
        invariant Pending(header) && rounds <= 1
        invariant header.pageBlink == null || header.pageBlink.used
        invariant header.pageBlink == old(header.pageBlink)
        invariant rounds == 0 ==> RightEnd(header) == old(RightEnd(header))
        invariant rounds == 1 ==> header.pageFlink == null || header.pageFlink.used
        invariant rounds == 1 ==> (header.pageFlink == null <==> old(RightEnd(header)))
        invariant forall b <- old(blocks) :: b.used ==> b in blocks && b.size == old(b.size)
        invariant blocks <= old(blocks)
        invariant Whole() == old(Whole())
        decreases 1 - rounds
      {
        ghost var r := header.pageFlink;
        assert Tile(header) && Tile(r);
        assert r.pageFlink != null ==> Coalesced(r);
        Merge(header, header.pageFlink);
        rounds := rounds + 1;
      }
    }

    // ---------------------------------------------------------------- splitting and allocating

    /** The bytes a client may use through the pointer to `h`. */
    ghost function Payload(h: Header): seq<byte>
      reads h`reqSize, mem
    {
      var p := h.addr + HEADER;
      if p + h.reqSize <= mem.Length then mem[p..p + h.reqSize] else []
    }

    /** No payload in use before and after was changed. */
    twostate predicate PayloadsKept()
      reads this`live, live`reqSize, mem
    {
      forall b {:trigger Payload(b)} :: b in old(live) && b in live ==> Payload(b) == old(Payload(b))
    }

    /** A payload none of whose bytes was written is the same. */
    twostate lemma SamePayload(b: Header)
      requires mem.Length == MEMORY && b.reqSize == old(b.reqSize) && b.addr + HEADER + b.reqSize <= MEMORY
      requires forall i :: b.addr + HEADER <= i < b.addr + HEADER + b.reqSize ==> mem[i] == old(mem[i])
      ensures Payload(b) == old(Payload(b))
    {
      var p, n := b.addr + HEADER, b.reqSize;
      var now, before := mem[p..p + n], old(mem[p..p + n]);
      forall i | 0 <= i < n ensures now[i] == before[i] { assert mem[p + i] == old(mem[p + i]); }
    }

    /** header->signature = HEAP_SIGNATURE */
    method WriteSignature(a: nat)
      requires a + 4 <= mem.Length
      modifies mem
      ensures Signature(a)
      ensures forall i :: 0 <= i < mem.Length && !(a <= i < a + 4) ==> mem[i] == old(mem[i])
    {
      mem[a], mem[a + 1], mem[a + 2], mem[a + 3] := 0x55, 0x55, 0x0B, 0xB0;
    }

    /** Only bytes of `h` past its payload were written. */
    twostate predicate SlackWritten(h: Header)
      requires mem.Length == MEMORY
      reads mem, h`reqSize
    {
      forall i :: 0 <= i < MEMORY && mem[i] != old(mem[i]) ==>
        h.addr + HEADER + h.reqSize <= i < h.addr + old(h.size)
    }

    /** The page-list half of heap_split_header: `n` becomes the right neighbour of `h`. */
    method LinkRight(h: Header, n: Header)
      requires Known() && Tiled() && h in blocks && n !in blocks
      requires n.base == h.base && n.size <= h.size && n.addr == h.addr + h.size - n.size
      modifies this`headers, this`blocks, h`size, h`pageFlink, blocks`pageBlink, n`pageFlink, n`pageBlink
      ensures h.pageFlink == n && Cut(h)
      ensures HEADER < h.size && HEADER < n.size ==> Known() && Tiled()
    {
      assert Tile(h);
      assert h.pageFlink != null ==> Tile(h.pageFlink);
      headers := headers[n.addr := n];
      blocks := blocks + {n};
      if h.pageFlink != null { h.pageFlink.pageBlink := n; }
      n.pageFlink := h.pageFlink;
      n.pageBlink := h;
      h.pageFlink := n;
      h.size := h.size - n.size;
      if HEADER < h.size && HEADER < n.size { CutKeepsTiles(h); }
    }

    /** The new header of heap_split_header, before it is linked. */
    method Carve(h: Header) returns (n: Header)
      requires Known() && Tiled() && h in blocks && h.reqSize + HEADER + HEADER <= h.size
      modifies mem
      ensures fresh(n) && n.addr == h.addr + HEADER + h.reqSize && n.base == h.base
      ensures n.size == h.size - h.reqSize - HEADER
      ensures !n.used && n.flink == null && n.blink == null && Signed(n) && SlackWritten(h)
    {
      assert Tile(h) && RegionOk(h.base);
      n := new Header(h.addr + HEADER + h.reqSize, h.base);
      n.size := h.size - h.reqSize - HEADER;
      n.reqSize := n.size - HEADER;
      WriteSignature(n.addr);
    }

    /** The first half of heap_split_header: a signed, unused header for what lies behind the payload of `h`. */
    method CutOff(h: Header) returns (n: Header)
      requires Known() && Tiled() && h in blocks && h.reqSize + HEADER + HEADER <= h.size
      modifies this`headers, this`blocks, mem, h`size, h`pageFlink, blocks`pageBlink
      ensures fresh(n) && h.pageFlink == n && Cut(h) && SlackWritten(h)
      ensures HEADER < h.size && HEADER < n.size ==> Known() && Tiled()
      ensures n.size == old(h.size) - h.reqSize - HEADER
      ensures !n.used && n.flink == null && n.blink == null && Signed(n)
    {
      n := Carve(h);
      LinkRight(h, n);
    }

    twostate lemma SlackKeepsSigned(h: Header)
      requires h in old(blocks) && mem.Length == MEMORY
      requires old(ValidBut(h)) && SlackWritten(h)
      ensures forall x {:trigger Signed(x)} :: x in old(blocks) ==> Signed(x)
    {
      assert old(Tile(h));
      forall x | x in old(blocks) ensures Signed(x) {
        assert old(Signed(x)) && old(Tile(x)) && old(Apart(h, x)) && old(RegionOk(x.base));
      }
    }

    twostate lemma SlackKeepsPayloads(h: Header)
      requires h in old(blocks) && mem.Length == MEMORY
      requires old(ValidBut(h)) && SlackWritten(h) && old(h.reqSize + HEADER <= h.size)
      requires forall b <- old(blocks) :: b.reqSize == old(b.reqSize)
      ensures PayloadsKept()
    {
      assert old(Tile(h)) && old(RegionOk(h.base));
      forall b | b in old(live) ensures Payload(b) == old(Payload(b)) {
        assert old(Tile(b)) && old(Apart(h, b)) && old(RegionOk(b.base));
        assert b != h ==> old(Settled(b));
        SamePayload(b);
      }
    }

    twostate lemma CutKeepsWhole(h: Header)
      requires h in old(blocks)
      requires old(Tiled()) && old(listed) <= old(blocks) && h !in old(listed) && Cut(h)
      requires listed == old(listed) + {h.pageFlink}
      ensures Whole() == old(Whole())
    {
      assert old(Tile(h));
    }

    /** A split that lists the new block keeps the invariant. */
    twostate lemma CutKeepsValid(h: Header)
      requires h in old(blocks) && mem.Length == MEMORY
      requires old(ValidBut(h)) && h.used && Settled(h) && live == old(live)
      requires Cut(h) && Known() && Tiled() && Linked() && SlackWritten(h)
      requires listed == old(listed) + {h.pageFlink} && Settled(h.pageFlink) && Signed(h.pageFlink)
      requires h.pageFlink.pageFlink == null || h.pageFlink.pageFlink.used
      requires forall b <- old(blocks) ::
        && b.used == old(b.used) && b.reqSize == old(b.reqSize) && b.index == old(b.index)
        && (b !in old(listed) ==> b.flink == old(b.flink) && b.blink == old(b.blink))
      ensures Valid() && Whole() == old(Whole()) && PayloadsKept()
    {
      SlackKeepsSigned(h);
      SlackKeepsPayloads(h);
      CutKeepsWhole(h);
      assert old(Tile(h));
      forall x | x in blocks ensures Settled(x) && Coalesced(x) {
        if x in old(blocks) && x != h {
          assert old(Settled(x)) && old(Tile(x)) && old(x.pageFlink != h ==> Coalesced(x));
        }
      }
    }

    /** Lines 61-81 of heap_split_header. */
    method SplitOff(h: Header) returns (wild: bool)
      requires ValidBut(h) && h in live && h.used && h !in listed && h.flink == null && h.blink == null
      requires 0 < h.reqSize && h.reqSize + HEADER + HEADER <= h.size
      requires h.pageFlink == null || h.pageFlink.used
      modifies this`headers, this`blocks, this`listed, this`clock, freeBlocks, mem
      modifies h`size, h`pageFlink, blocks`pageBlink, listed`flink, listed`blink
      ensures wild <==> old(h.size) == h.reqSize + HEADER + HEADER
      ensures !wild ==> Valid() && Whole() == old(Whole()) && PayloadsKept()
      ensures h.pageFlink != null && fresh(h.pageFlink) && blocks == old(blocks) + {h.pageFlink}
      ensures wild ==> BareBehind(h, old(h.reqSize))
    {
      hide Valid, Whole, PayloadsKept, Coalesced, Signed;
      assert Tile(h);
      var n := CutOff(h);
      if n.size == HEADER { return true; }
      InsertUnused(n);
      CutKeepsValid(h);
      wild := false;
    }

    /** heap_split_header; `wild` when the remainder is a bare header of class 255: free_blocks[255] is written. */
    method Split(h: Header) returns (wild: bool)
      requires ValidBut(h) && h in live && h.used && h !in listed && h.flink == null && h.blink == null
      requires 0 < h.reqSize && h.reqSize + HEADER <= h.size
      requires h.pageFlink == null || h.pageFlink.used
      modifies this`headers, this`blocks, this`listed, this`clock, freeBlocks, mem
      modifies h`size, h`pageFlink, blocks`pageBlink, listed`flink, listed`blink
      ensures wild <==> old(h.size) == h.reqSize + HEADER + HEADER
      ensures !wild ==> Valid() && Whole() == old(Whole()) && PayloadsKept()
      ensures blocks == old(blocks) ||
        (h.pageFlink != null && fresh(h.pageFlink) && blocks == old(blocks) + {h.pageFlink})
      ensures wild ==> BareBehind(h, old(h.reqSize))
    {
      wild := false;
      if HEADER > h.size - h.reqSize { return; }
      if HEADER > h.size - h.reqSize - HEADER {
        assert Settled(h);
        return;
      }
      wild := SplitOff(h);
    }

    // ---------------------------------------------------------------- regions

    /** page_map(NULL, pages, flags): some free pages, or 0 when there is no frame or no address range left. */
    method PageMap(pages: nat) returns (base: nat)
      modifies this`mapped, this`trace
      ensures base != 0 ==> Unclaimed(old(mapped), base, pages) && mapped == old(mapped)[base := pages]
      ensures base == 0 ==> mapped == old(mapped)
      ensures trace == old(trace) + if base == 0 then [] else [Map(base, pages)]
    {
      base := 0;
      if * { return; }
      if b: nat :| 0 < b < MEMORY && Unclaimed(mapped, b, pages) {
        base := b;
        mapped, trace := mapped[b := pages], trace + [Map(b, pages)];
      }
    }

    /** page_unmap(base, pages): only ever called with one whole region. */
    method PageUnmap(base: nat, pages: nat)
      requires base in mapped && mapped[base] == pages
      modifies this`mapped, this`trace
      ensures mapped == old(mapped) - {base} && trace == old(trace) + [Unmap(base)]
    {
      mapped, trace := mapped - {base}, trace + [Unmap(base)];
    }

    /** `h` is the one block of a region that was free before. */
    twostate predicate Grown(new h: Header)
      reads this`headers, this`blocks, this`mapped, h, blocks`size, blocks`pageFlink, blocks`pageBlink
    {
      && h !in old(blocks) && blocks == old(blocks) + {h} && headers == old(headers)[h.addr := h]
      && h.base == h.addr && 0 < h.addr && h.pageFlink == null && h.pageBlink == null
      && h.base in mapped && 1 <= mapped[h.base] < PAGE_LIMIT
      && h.size == mapped[h.base] * PAGE_SIZE
      && mapped == old(mapped)[h.base := mapped[h.base]]
      && Unclaimed(old(mapped), h.addr, mapped[h.base])
      && forall b <- old(blocks) ::
           b.size == old(b.size) && b.pageFlink == old(b.pageFlink) && b.pageBlink == old(b.pageBlink)
    }

    twostate lemma GrownIsOutside(new h: Header)
      requires old(Known()) && old(Tiled()) && Grown(h)
      ensures h.addr !in old(mapped) && h.addr !in old(headers)
      ensures forall x <- old(blocks) :: old(x.addr + x.size) <= h.addr || h.addr + h.size <= x.addr
    {
      forall c | c in old(mapped) ensures c != h.addr { assert old(RegionOk(c)); }
      forall x | x in old(blocks) ensures old(x.addr + x.size) <= h.addr || h.addr + h.size <= x.addr {
        assert old(Tile(x)) && old(RegionOk(x.base));
      }
      forall a | a in old(headers) ensures a != h.addr {
        var x: Header := old(headers[a]);
        assert old(Tile(x));
      }
    }

    twostate lemma GrownKeepsTiles(new h: Header)
      requires old(Known()) && old(Tiled()) && Grown(h)
      ensures Known() && Tiled()
    {
      GrownIsOutside(h);
      forall x | x in blocks ensures Here(x) && Tile(x) {
        if x != h { assert old(Here(x)) && old(Tile(x)); }
      }
      forall b | b in mapped ensures RegionOk(b) {
        if b != h.base { assert old(RegionOk(b)); }
      }
      forall x, y | x in blocks && y in blocks ensures Apart(x, y) {
        if x != h && y != h { assert old(Apart(x, y)); }
      }
    }

    twostate lemma GrownKeepsPayloads(new h: Header)
      requires old(Valid()) && Grown(h) && mem.Length == MEMORY
      requires forall b <- old(blocks) :: b.reqSize == old(b.reqSize)
      requires forall i :: 0 <= i < MEMORY && mem[i] != old(mem[i]) ==> h.addr <= i < h.addr + h.size
      ensures PayloadsKept()
    {
      GrownIsOutside(h);
      forall b | b in old(live) ensures Payload(b) == old(Payload(b)) {
        assert old(Settled(b)) && old(Tile(b)) && old(RegionOk(b.base));
        SamePayload(b);
      }
    }

    twostate lemma GrownKeepsValid(new h: Header)
      requires old(Valid()) && Grown(h) && Linked() && mem.Length == MEMORY
      requires listed == old(listed) && live == old(live)
      requires forall b <- old(blocks) ::
        && b.used == old(b.used) && b.reqSize == old(b.reqSize) && b.index == old(b.index)
        && b.flink == old(b.flink) && b.blink == old(b.blink)
      requires Signed(h)
      requires forall i :: 0 <= i < MEMORY && mem[i] != old(mem[i]) ==> h.addr <= i < h.addr + h.size
      ensures ValidBut(h) && h.addr !in old(mapped) && PayloadsKept()
    {
      GrownKeepsTiles(h);
      GrownKeepsPayloads(h);
      GrownIsOutside(h);
      forall x | x in blocks && x != h ensures Settled(x) && Coalesced(x) && Signed(x) {
        assert old(Settled(x)) && old(Tile(x)) && old(Coalesced(x)) && old(Signed(x));
      }
    }

    /** The header writes of heap_allocate_header: one unused block over the whole region. */
    method WriteRegionHeader(base: nat, pages: nat, size: nat) returns (header: Header)
      requires mem.Length == MEMORY && 1 <= pages < PAGE_LIMIT && base + pages * PAGE_SIZE <= MEMORY
      modifies this`headers, this`blocks, mem
      ensures fresh(header) && headers == old(headers)[base := header] && blocks == old(blocks) + {header}
      ensures header.addr == base == header.base && header.size == pages * PAGE_SIZE && header.reqSize == size
      ensures header.index == ClassOf(header.size - HEADER) && !header.used
      ensures header.flink == null && header.blink == null && header.pageFlink == null && header.pageBlink == null
      ensures Signed(header)
      ensures forall i :: 0 <= i < MEMORY && mem[i] != old(mem[i]) ==> base <= i < base + HEADER
    {
      header := new Header(base, base);
      headers := headers[base := header];
      blocks := blocks + {header};
      WriteSignature(base);
      header.size := pages * PAGE_SIZE;
      header.reqSize := size;
      header.index := GetIndex(header.size - HEADER);
    }

    /** heap_allocate_header; null when page_map panics. */
    method AllocateHeader(size: nat) returns (header: Header?)
      requires Valid() && 0 < size && size + HEADER <= LARGEST
      modifies this`headers, this`blocks, this`mapped, this`trace, mem
      ensures header == null ==> Valid() && mapped == old(mapped) && blocks == old(blocks)
      ensures trace == old(trace) + if header == null then [] else [Map(header.addr, PageCount(size + HEADER))]
      ensures header != null ==>
        && fresh(header) && ValidBut(header) && blocks == old(blocks) + {header}
        && header !in listed && header !in live && header.flink == null && header.blink == null
        && header.pageFlink == null && header.pageBlink == null && header.base == header.addr
        && header.reqSize == size && header.size == PageCount(size + HEADER) * PAGE_SIZE
        && mapped == old(mapped)[header.addr := PageCount(size + HEADER)] && header.addr !in old(mapped)
        && Unclaimed(old(mapped), header.addr, PageCount(size + HEADER))
      ensures PayloadsKept()
    {
      var pages := PageCount(size + HEADER);
      PagesOfRequest(size);
      var base := PageMap(pages);
      if base == 0 { return null; }
      header := WriteRegionHeader(base, pages, size);
      GrownKeepsValid(header);
    }

    // ---------------------------------------------------------------- kmalloc

    /** `h` came into use; the others in use are those that were, with the same requested sizes. */
    twostate predicate NewlyUsed(new h: Header)
      reads this`live, live`reqSize, h`used
    {
      && h !in old(live) && live == old(live) + {h} && h.used
      && (forall b <- old(live) :: b.reqSize == old(b.reqSize))
    }

    /** Every region is one page. */
    ghost predicate AllOnePage()
      reads this`mapped
    {
      forall b <- mapped :: mapped[b] == 1
    }

    /** complete_pages[k] is the balance of the whole free regions of class `k`, in 8 bits. */
    ghost predicate Counted()
      reads completePages, this`cache
    {
      && completePages.Length == CLASSES
      && (forall k :: 0 <= k < CLASSES ==> completePages[k] == Balance(cache, k) % 256)
    }

    /** The counters are right; while all requests fit one page, the first counts the whole free regions. */
    ghost predicate Tallied()
      reads this`small, this`mapped, completePages, this`cache, this`listed, listed`pageFlink, listed`pageBlink
    {
      && Counted()
      && (small ==>
            && AllOnePage()
            && completePages[0] == |Whole()| <= MAX_COMPLETE)
    }

    /** `x` is an unused block in the class of `size` with room for `size` bytes. */
    ghost predicate Fits(x: Header, size: nat)
      requires 1 <= size <= LARGEST
      reads this`listed, x`index, x`size
    {
      x in listed && x.index == ClassOf(size) && size + HEADER <= x.size
    }

    /** Some listed block serves `size`. */
    ghost predicate Fitting(size: nat)
      requires 1 <= size <= LARGEST
      reads this`listed, listed`index, listed`size
    {
      exists x <- listed :: Fits(x, size)
    }

    ghost predicate NewestFit(x: Header, size: nat)
      requires 1 <= size <= LARGEST
      reads this`listed, x`index, x`size, x`stamp, listed`index, listed`size, listed`stamp
    {
      Fits(x, size) && forall y <- listed :: Fits(y, size) ==> y.stamp <= x.stamp
    }

    /** The block that serves `size` leaves exactly one header's worth of bytes behind it. */
    ghost predicate BareRemainder(size: nat)
      requires 1 <= size && size + HEADER <= LARGEST
      reads this`listed, listed`index, listed`size, listed`stamp
    {
      if Fitting(size)
      then exists x <- listed :: NewestFit(x, size) && x.size == size + HEADER + HEADER
      else PageCount(size + HEADER) * PAGE_SIZE == size + HEADER + HEADER
    }

    /** What kmalloc(size) does to the whole free regions: it takes the block that serves, if it is one of them. */
    ghost function ReuseEvents(size: nat): seq<CacheEvent>
      requires 1 <= size <= LARGEST
      reads this`listed, listed`index, listed`size, listed`stamp, listed`pageFlink, listed`pageBlink
    {
      if exists x <- listed :: NewestFit(x, size) && Alone(x) then [Out(ClassOf(size))] else []
    }

    lemma ListsLinked()
      requires Valid()
      ensures listed <= blocks && Linked()
    {
    }

    lemma ReuseIs(size: nat, header: Header?)
      requires 1 <= size <= LARGEST && (header == null <==> !Fitting(size))
      requires header != null ==> NewestFit(header, size) && forall x <- listed :: NewestFit(x, size) ==> x == header
      ensures ReuseEvents(size) == if header != null && Alone(header) then [Out(header.index)] else []
    {
      forall x | x in listed && NewestFit(x, size) ensures Fitting(size) { assert Fits(x, size); }
    }

    /** The search of kmalloc: the block of the class inserted last among those that fit. */
    method FirstFit(size: nat) returns (header: Header?)
      requires Linked() && 1 <= size <= LARGEST
      ensures header == null <==> !Fitting(size)
      ensures header != null ==> header in listed && header.index == ClassOf(size) && size + HEADER <= header.size
      ensures header != null ==> NewestFit(header, size) && forall x <- listed :: NewestFit(x, size) ==> x == header
    {
      var index := GetIndex(size);
      header := freeBlocks[index];
      assert Head(index);
      forall x | x in listed && x.index == index ensures header != null && x.stamp <= header.stamp {
        assert Node(x) && Ordered(header, x);
      }
      assert forall x, y :: x in listed && y in listed ==> Ordered(x, y);
      while header != null
        invariant header != null ==> header in listed && header.index == index
        invariant forall x <- listed ::
          x.index == index && (header == null || header.stamp < x.stamp) ==> x.size < size + HEADER
        decreases if header == null then 0 else 1 + header.stamp
      {
        if header.size - HEADER >= size { break; }
        assert Node(header);
        assert forall x <- listed :: Ordered(x, header);
        header := header.flink;
      }
    }

    twostate lemma ReuseKeepsValid(h: Header)
      requires old(Valid()) && h in old(listed) && h.used && live == old(live) + {h}
      requires Linked() && Known() && Tiled() && listed == old(listed) - {h} && blocks == old(blocks)
      requires unchanged(mem)
      requires forall b <- blocks ::
        && b.size == old(b.size) && b.pageFlink == old(b.pageFlink) && b.index == old(b.index)
        && (b != h ==> b.used == old(b.used) && b.reqSize == old(b.reqSize))
        && (b !in old(listed) ==> b.flink == old(b.flink) && b.blink == old(b.blink))
      ensures ValidBut(h) && (h.pageFlink == null || h.pageFlink.used)
    {
      assert old(Settled(h)) && old(Tile(h)) && old(Coalesced(h));
      forall b | b in blocks && b != h ensures Settled(b) {
        assert old(Settled(b));
      }
      forall b | b in blocks && b != h && b.pageFlink in blocks && b.pageFlink != h ensures Coalesced(b) {
        assert old(Coalesced(b));
      }
      forall b | b in blocks ensures Signed(b) { assert old(Signed(b)); }
    }

    lemma ListedClass(h: Header)
      requires Valid() && h in listed
      ensures h in blocks && !h.used && h !in live && h.index < CLASSES
      ensures AllOnePage() ==> h.index == 0
    {
      assert Settled(h) && Tile(h);
      if AllOnePage() {
        assert mapped[h.base] == 1 && h.size <= PAGE_SIZE;
        ClassBracket(h.size - HEADER, 0);
      }
    }

    /** Lines 149-151 of kmalloc: the block found is marked used and leaves its list. */
    method Reuse(header: Header, size: nat)
      requires Valid() && header in listed && 0 < size && size + HEADER <= header.size
      modifies this`listed, this`live, freeBlocks, listed`flink, listed`blink, header`used, header`reqSize
      ensures ValidBut(header) && listed == old(listed) - {header}
      ensures NewlyUsed(header) && header.reqSize == size && header.flink == null && header.blink == null
      ensures header.pageFlink == null || header.pageFlink.used
      ensures header.index < CLASSES && (AllOnePage() ==> header.index == 0)
      ensures Whole() == old(Whole()) - {header}
    {
      hide Contents, Coalesced, Signed;
      ListedClass(header);
      header.used := true;
      live := live + {header};
      header.reqSize := size;
      RemoveHeader(header);
      ReuseKeepsValid(header);
    }

    /** Line 153 of kmalloc: a whole region that is used again is counted out. */
    method CountOut(header: Header, ghost was: set<Header>)
      requires ValidBut(header)
      requires Counted() && header.index < CLASSES
      requires Whole() == was - {header}
      requires header in was <==> header.pageFlink == null && header.pageBlink == null
      requires small ==>
        AllOnePage() && completePages[0] == |was| <= MAX_COMPLETE && header.index == 0
      modifies completePages, this`cache
      ensures Tallied() && ValidBut(header)
      ensures cache == old(cache) + if Alone(header) then [Out(header.index)] else []
    {
      hide Balance;
      if header.pageFlink == null && header.pageBlink == null {
        completePages[header.index] := (completePages[header.index] + 255) % 256;
        Note(Out(header.index));
      }
    }

    /** A counter was changed, and the event is noted. */
    ghost method Note(e: CacheEvent)
      requires completePages.Length == CLASSES && e.k < CLASSES
      requires forall k :: 0 <= k < CLASSES && k != e.k ==> completePages[k] == Balance(cache, k) % 256
      requires completePages[e.k] == (Balance(cache, e.k) % 256 + if e.In? then 1 else 255) % 256
      modifies this`cache
      ensures Counted() && cache == old(cache) + [e]
    {
      hide Balance;
      forall k | 0 <= k < CLASSES ensures completePages[k] == Balance(cache + [e], k) % 256 {
        BalanceNext(cache, e, k);
      }
      cache := cache + [e];
    }

    /** header->used = true */
    method MarkUsed(header: Header)
      requires ValidBut(header) && header in blocks && header !in live
      modifies this`live, header`used
      ensures ValidBut(header) && NewlyUsed(header)
    {
      header.used := true;
      live := live + {header};
      forall x | x in blocks && x != header ensures Settled(x) { assert old(Settled(x)); }
    }

    /** Line 147 of kmalloc: a new region, marked used. */
    method ObtainRegion(size: nat) returns (header: Header?)
      requires Valid() && Tallied() && 0 < size && size + HEADER <= LARGEST
      requires small ==> size + HEADER <= PAGE_SIZE
      modifies this`headers, this`blocks, this`mapped, this`trace, this`live, mem
      ensures trace == old(trace) + if header == null then [] else [Map(header.addr, PageCount(size + HEADER))]
      ensures header == null ==>
        Valid() && Tallied() && live == old(live) && blocks == old(blocks) && mapped == old(mapped)
      ensures header != null ==>
        && header.size == PageCount(size + HEADER) * PAGE_SIZE && header.addr !in old(mapped)
        && mapped == old(mapped)[header.addr := PageCount(size + HEADER)]
        && Unclaimed(old(mapped), header.addr, PageCount(size + HEADER))
        && ValidBut(header) && header !in listed && Tallied() && NewlyUsed(header)
        && header.reqSize == size && header.flink == null && header.blink == null && header.pageFlink == null
      ensures PayloadsKept() && fresh(blocks - old(blocks))
    {
      header := AllocateHeader(size);
      if header != null { MarkUsed(header); }
    }

    /** Lines 149-153 of kmalloc: a listed block is taken, and counted out if it was a whole region. */
    method ObtainListed(header: Header, size: nat)
      requires Valid() && Tallied() && header in listed && 0 < size && size + HEADER <= header.size
      modifies this`listed, this`live, this`cache, freeBlocks, completePages
      modifies listed`flink, listed`blink, header`used, header`reqSize
      ensures ValidBut(header) && header !in listed && Tallied() && NewlyUsed(header)
      ensures cache == old(cache) + if Alone(header) then [Out(header.index)] else []
      ensures header.reqSize == size && header.flink == null && header.blink == null
      ensures header.pageFlink == null || header.pageFlink.used
    {
      hide Balance, ValidBut, Known, Tiled, Linked, Coalesced, Signed;
      ghost var was := Whole();
      Reuse(header, size);
      CountOut(header, was);
    }

    ghost method NoteRequest(size: nat)
      requires Valid() && Tallied()
      modifies this`small
      ensures Valid() && Tallied() && small == (old(small) && size + HEADER <= PAGE_SIZE)
    {
      small := small && size + HEADER <= PAGE_SIZE;
    }

    /** A listed block serves the request. */
    method TakeListed(header: Header, size: nat)
      requires Valid() && Tallied() && header in listed && 0 < size && size + HEADER <= header.size
      modifies this`small, this`listed, this`live, this`cache, freeBlocks, completePages
      modifies listed`flink, listed`blink, header`used, header`reqSize
      ensures small == (old(small) && size + HEADER <= PAGE_SIZE) && PayloadsKept()
      ensures ValidBut(header) && header !in listed && Tallied() && NewlyUsed(header)
      ensures cache == old(cache) + if Alone(header) then [Out(header.index)] else []
      ensures header.reqSize == size && header.flink == null && header.blink == null
      ensures header.pageFlink == null || header.pageFlink.used
    {
      hide Whole, Tallied, Coalesced, Signed;
      assert Settled(header);
      NoteRequest(size);
      ObtainListed(header, size);
    }

    /** A new region serves the request; null when page_map panics. */
    method TakeRegion(size: nat) returns (header: Header?)
      requires Valid() && Tallied() && 0 < size && size + HEADER <= LARGEST
      modifies this`small, this`headers, this`blocks, this`mapped, this`trace, this`live, mem
      ensures small == (old(small) && size + HEADER <= PAGE_SIZE)
      ensures trace == old(trace) + if header == null then [] else [Map(header.addr, PageCount(size + HEADER))]
      ensures header == null ==>
        Valid() && Tallied() && live == old(live) && blocks == old(blocks) && mapped == old(mapped)
      ensures header != null ==>
        && header.size == PageCount(size + HEADER) * PAGE_SIZE && header.addr !in old(mapped)
        && mapped == old(mapped)[header.addr := PageCount(size + HEADER)]
        && Unclaimed(old(mapped), header.addr, PageCount(size + HEADER))
        && ValidBut(header) && header !in listed && Tallied() && NewlyUsed(header)
        && header.reqSize == size && header.flink == null && header.blink == null && header.pageFlink == null
      ensures PayloadsKept() && fresh(blocks - old(blocks))
    {
      hide Valid, ValidBut, Whole, Tallied;
      NoteRequest(size);
      header := ObtainRegion(size);
    }

    /** The part of kmalloc that finds a block: one from the list of its class, else a new region. */
    method Obtain(size: nat) returns (header: Header?, reused: bool)
      requires Valid() && Tallied() && 0 < size && size + HEADER <= LARGEST
      modifies this`small, this`headers, this`blocks, this`mapped, this`trace, this`listed, this`live, this`cache
      modifies freeBlocks, completePages, mem
      modifies blocks`flink, blocks`blink, blocks`used, blocks`reqSize
      ensures small == (old(small) && size + HEADER <= PAGE_SIZE)
      ensures header == null ==>
        Valid() && Tallied() && blocks == old(blocks) && mapped == old(mapped) && live == old(live)
      ensures reused <==> old(Fitting(size))
      ensures header == null ==> !Fitting(size)
      ensures cache == old(cache) + old(ReuseEvents(size))
      ensures trace ==
        old(trace) + if reused || header == null then [] else [Map(header.addr, PageCount(size + HEADER))]
      ensures reused ==>
        && header != null && header in old(listed) && mapped == old(mapped) && blocks == old(blocks)
        && old(NewestFit(header, size)) && forall x <- old(listed) :: old(NewestFit(x, size)) ==> x == header
      ensures !reused && header != null ==>
        && header.size == PageCount(size + HEADER) * PAGE_SIZE && header.addr !in old(mapped)
        && mapped == old(mapped)[header.addr := PageCount(size + HEADER)]
        && Unclaimed(old(mapped), header.addr, PageCount(size + HEADER))
      ensures header != null ==>
        && ValidBut(header) && header !in listed && Tallied() && NewlyUsed(header)
        && header.reqSize == size && header.flink == null && header.blink == null
        && (header.pageFlink == null || header.pageFlink.used)
      ensures PayloadsKept() && fresh(blocks - old(blocks))
    {
      hide Valid, ValidBut, Linked, Whole, Tallied, ReuseEvents, NewestFit, Fits, Fitting, Unclaimed;
      ListsLinked();
      header := FirstFit(size);
      ReuseIs(size, header);
      reused := header != null;
      if header != null {
        TakeListed(header, size);
      } else {
        header := TakeRegion(size);
      }
    }

    /** The block at `a` serves `size`: the newest fitting block of the class, and only without one a new region. */
    twostate predicate ServedBy(size: nat, a: nat)
      requires 1 <= size && size + HEADER <= LARGEST
      reads this`mapped, this`trace
    {
      if old(Fitting(size))
      then mapped == old(mapped) && trace == old(trace) && a in old(headers) && old(NewestFit(headers[a], size))
      else RegionAdded(a, PageCount(size + HEADER))
    }

    /** page_map was called, and `n` pages at `a` are a new region. */
    twostate predicate RegionAdded(a: nat, n: nat)
      reads this`mapped, this`trace
    {
      && a !in old(mapped) && mapped == old(mapped)[a := n] && Unclaimed(old(mapped), a, n)
      && trace == old(trace) + [Map(a, n)]
    }

    /** A block that serves `size` bytes has a bare header behind it, one without payload. */
    ghost predicate BareBehind(h: Header, size: nat)
      reads this`blocks, h`reqSize, h`pageFlink, blocks`size
    {
      h in blocks && h.reqSize == size && h.pageFlink != null && h.pageFlink in blocks && h.pageFlink.size == HEADER
    }

    ghost predicate LeftBare(size: nat)
      reads this`blocks, blocks`reqSize, blocks`pageFlink, blocks`size
    {
      exists h <- blocks :: BareBehind(h, size)
    }

    /** Lines 139-156 of kmalloc: a block of the class or a new region, cut to size. */
    method Serve(size: nat) returns (header: Header?, wild: bool)
      requires Valid() && Tallied() && 0 < size && size + HEADER <= LARGEST
      modifies this`small, this`headers, this`blocks, this`mapped, this`trace, this`listed, this`live, this`clock
      modifies this`cache, freeBlocks, completePages, mem, blocks
      ensures fresh(blocks - old(blocks))
      ensures wild <==> header != null && old(BareRemainder(size))
      ensures wild ==> BareBehind(header, size)
      ensures cache == old(cache) + old(ReuseEvents(size))
      ensures small == (old(small) && size + HEADER <= PAGE_SIZE)
      ensures header == null ==> live == old(live) && mapped == old(mapped) && trace == old(trace)
      ensures header != null ==> header in blocks && NewlyUsed(header) && header.reqSize == size
      ensures !wild ==> Valid() && Tallied() && PayloadsKept()
      ensures header == null ==> !old(Fitting(size)) && !Fitting(size)
      ensures header != null ==> ServedBy(size, header.addr)
    {
      var reused;
      header, reused := Obtain(size);
      wild := false;
      if header != null {
        assert reused ==> header.size == old(header.size);
        assert reused ==> old(Here(header));
        wild := Split(header);
      }
    }

    ghost predicate Live(p: nat)
      reads this`headers, this`live
    {
      HEADER <= p && p - HEADER in headers && headers[p - HEADER] in live
    }

    /** What the clients of the heap see. */
    ghost function Contents(): Store
      reads this`headers, this`live, live`reqSize, mem
    {
      imap p: nat | Live(p) :: Payload(headers[p - HEADER])
    }

    /** Blocks that stay in use stay under the same pointer with the same bytes. */
    twostate lemma SameBlocks()
      requires old(Known()) && old(live) <= old(blocks) && Known() && live <= blocks && PayloadsKept()
      ensures forall q: nat :: old(Live(q)) && old(headers[q - HEADER]) in live ==>
        Live(q) && headers[q - HEADER] == old(headers[q - HEADER]) && Contents()[q] == old(Contents())[q]
      ensures forall q: nat :: Live(q) && headers[q - HEADER] in old(live) ==>
        old(Live(q)) && headers[q - HEADER] == old(headers[q - HEADER])
    {
      forall q: nat | old(Live(q)) && old(headers[q - HEADER]) in live
        ensures Live(q) && headers[q - HEADER] == old(headers[q - HEADER])
        ensures Contents()[q] == old(Contents())[q]
      {
        var h: Header := old(headers[q - HEADER]);
        assert Here(h);
        assert Payload(h) == old(Payload(h));
      }
      forall q: nat | Live(q) && headers[q - HEADER] in old(live)
        ensures old(Live(q)) && headers[q - HEADER] == old(headers[q - HEADER])
      {
        var h: Header := headers[q - HEADER];
        assert old(Here(h));
      }
    }

    twostate lemma SameContents()
      requires old(Known()) && old(live) <= old(blocks) && Known() && live == old(live) && live <= blocks
      requires PayloadsKept()
      ensures Contents() == old(Contents())
    {
      SameBlocks();
    }

    twostate lemma ContentsGrown(p: nat)
      requires old(Known()) && old(live) <= old(blocks) && Known() && live <= blocks
      requires HEADER <= p && p - HEADER in headers && NewlyUsed(headers[p - HEADER]) && PayloadsKept()
      requires p + headers[p - HEADER].reqSize <= MEMORY
      ensures Allocated(old(Contents()), Contents(), p, headers[p - HEADER].reqSize)
    {
      SameBlocks();
      forall q: nat | Live(q) && headers[q - HEADER] == headers[p - HEADER] ensures q == p {
        assert headers[q - HEADER].addr == q - HEADER && headers[p - HEADER].addr == p - HEADER;
      }
    }

    twostate lemma ContentsShrunk(p: nat)
      requires old(Known()) && old(live) <= old(blocks) && Known() && live <= blocks
      requires old(Live(p)) && live == old(live) - {old(headers[p - HEADER])} && PayloadsKept()
      ensures Contents() == old(Contents()) - {p}
    {
      SameBlocks();
      forall q: nat | old(Live(q)) && old(headers[q - HEADER]) == old(headers[p - HEADER]) ensures q == p {
        assert old(headers[q - HEADER].addr) == q - HEADER && old(headers[p - HEADER].addr) == p - HEADER;
      }
    }

    twostate lemma NewPayload(new h: Header)
      requires old(Valid()) && Valid() && h in blocks && NewlyUsed(h) && PayloadsKept()
      ensures Allocated(old(Contents()), Contents(), h.addr + HEADER, h.reqSize)
    {
      assert Here(h) && Tile(h) && RegionOk(h.base) && Settled(h);
      ContentsGrown(h.addr + HEADER);
    }

    /** Lines 139-157 of kmalloc; `at` is the block that serves. */
    method Place(size: nat) returns (out: Outcome, ghost at: nat)
      requires Valid() && Tallied() && 0 < size && size + HEADER <= LARGEST
      modifies this, freeBlocks, completePages, mem, blocks
      ensures !out.Null? && fresh(blocks - old(blocks))
      ensures out.Wild? <==> !out.Panic? && old(BareRemainder(size))
      ensures !out.Wild? ==> Valid() && Tallied()
      ensures small == (old(small) && size + HEADER <= PAGE_SIZE)
      ensures out.Panic? ==> Contents() == old(Contents()) && mapped == old(mapped) && trace == old(trace)
      ensures out.Panic? ==> !old(Fitting(size)) && !Fitting(size)
      ensures out.Wild? ==> LeftBare(size)
      ensures cache == old(cache) + old(ReuseEvents(size))
      ensures out.Ptr? ==> Allocated(old(Contents()), Contents(), out.p, size) && out.p == at + HEADER
      ensures !out.Panic? ==> ServedBy(size, at)
    {
      hide Contents, Tallied;
      var header, wild := Serve(size);
      at := 0;
      if header == null {
        SameContents();
        return Panic, at;
      }
      at := header.addr;
      if wild {
        assert BareBehind(header, size);
        return Wild, at;
      }
      out := Ptr(header.addr + HEADER);
      NewPayload(header);
    }

    /** `calls` are the calls of page_map and page_unmap that were made, and the regions changed accordingly. */
    twostate predicate Called(calls: seq<PageCall>)
      reads this`mapped, this`trace
    {
      trace == old(trace) + calls && Traced(old(mapped), calls, mapped)
    }

    twostate lemma ServedCalls(at: (nat, nat))
      requires 0 < at.0 && at.0 + HEADER <= LARGEST && ServedBy(at.0, at.1)
      ensures Called(if old(Fitting(at.0)) then [] else [Map(at.1, PageCount(at.0 + HEADER))])
    {
      PagesOfRequest(at.0);
      TracedNone(old(mapped));
      if !old(Fitting(at.0)) {
        var c := Map(at.1, PageCount(at.0 + HEADER));
        TracedNext(old(mapped), [], old(mapped), c);
        assert [] + [c] == [c];
      }
    }

    /** kmalloc; `calls` are the page calls it makes. */
    method Kmalloc(size: nat) returns (out: Outcome, ghost calls: seq<PageCall>)
      requires Valid() && Tallied() && size + HEADER <= LARGEST
      modifies this, freeBlocks, completePages, mem, blocks
      ensures size == 0 <==> out.Null?
      ensures fresh(blocks - old(blocks))
      ensures out.Wild? <==> size > 0 && !out.Panic? && old(BareRemainder(size))
      ensures !out.Wild? ==> Valid() && Tallied()
      ensures small == (old(small) && size + HEADER <= PAGE_SIZE)
      ensures out.Null? || out.Panic? ==> Contents() == old(Contents())
      ensures out.Panic? ==> !old(Fitting(size)) && !Fitting(size)
      ensures out.Wild? ==> LeftBare(size)
      ensures cache == old(cache) + if size == 0 then [] else old(ReuseEvents(size))
      ensures out.Ptr? ==> Allocated(old(Contents()), Contents(), out.p, size)
      ensures out.Ptr? ==> HEADER <= out.p && ServedBy(size, out.p - HEADER)
      ensures Called(calls) && (calls == [] <==> out.Null? || out.Panic? || old(Fitting(size)))
    {
      hide Contents, Valid;
      calls := [];
      TracedNone(mapped);
      if size == 0 { return Null, calls; }
      ghost var at;
      out, at := Place(size);
      if !out.Panic? {
        ServedCalls((size, at));
        calls := if old(Fitting(size)) then [] else [Map(at, PageCount(size + HEADER))];
      }
    }

    // ---------------------------------------------------------------- free

    /** header->used = false */
    method MarkUnused(header: Header)
      requires Valid() && header in live
      modifies this`live, header`used
      ensures Pending(header) && live == old(live) - {header}
      ensures LeftEnd(header) == old(LeftEnd(header)) && RightEnd(header) == old(RightEnd(header))
    {
      assert Settled(header) && Tile(header);
      header.used := false;
      live := live - {header};
      forall x | x in blocks && x != header ensures Settled(x) { assert old(Settled(x)); }
      forall x | x in blocks && x != header && x.pageFlink in blocks && x.pageFlink != header ensures Coalesced(x) {
        assert old(Coalesced(x));
      }
    }

    twostate lemma ListingKeepsValid(h: Header)
      requires old(Pending(h)) && Linked() && Known() && Tiled()
      requires (h.pageFlink == null || h.pageFlink.used) && (h.pageBlink == null || h.pageBlink.used)
      requires listed == old(listed) + {h} && Settled(h) && live == old(live) && blocks == old(blocks)
      requires unchanged(mem)
      requires forall b <- blocks ::
        && b.size == old(b.size) && b.pageFlink == old(b.pageFlink) && b.pageBlink == old(b.pageBlink)
        && b.used == old(b.used) && b.reqSize == old(b.reqSize) && (b != h ==> b.index == old(b.index))
        && (b !in listed ==> b.flink == old(b.flink) && b.blink == old(b.blink))
      ensures Valid()
      ensures Whole() == old(Whole()) + if h.pageFlink == null && h.pageBlink == null then {h} else {}
    {
      assert old(Tile(h));
      forall x | x in blocks ensures Settled(x) && Coalesced(x) && Signed(x) {
        assert old(Signed(x)) && old(Tile(x));
        if x != h { assert old(Settled(x)) && old(x.pageFlink != h ==> Coalesced(x)); }
      }
    }

    lemma WholeGrown(was: set<Header>, h: Header)
      requires h !in was && Whole() == was + {h}
      ensures |Whole()| == |was| + 1
    {
    }

    /** Line 182 of free. */
    method ListFreed(header: Header)
      requires Pending(header)
      requires header.pageFlink == null || header.pageFlink.used
      requires header.pageBlink == null || header.pageBlink.used
      modifies this`listed, this`clock, freeBlocks, listed`flink, listed`blink
      modifies header`flink, header`index, header`stamp
      ensures Valid()
      ensures |Whole()| == |old(Whole())| + if header.pageFlink == null && header.pageBlink == null then 1 else 0
    {
      ghost var was := Whole();
      assert Tile(header) && RegionOk(header.base);
      InsertUnused(header);
      ListingKeepsValid(header);
      if header.pageFlink == null && header.pageBlink == null { WholeGrown(was, header); }
    }

    twostate lemma UnmappingKeepsTiles(h: Header)
      requires old(Pending(h)) && old(h.pageFlink) == null && old(h.pageBlink) == null
      requires blocks == old(blocks) - {h} && headers == old(headers) - {h.addr} && mapped == old(mapped) - {h.base}
      requires forall b <- blocks ::
        b.size == old(b.size) && b.pageFlink == old(b.pageFlink) && b.pageBlink == old(b.pageBlink)
      ensures Known() && Tiled()
    {
      assert old(Tile(h)) && old(Here(h));
      forall x | x in blocks ensures Here(x) && Tile(x) {
        assert old(Here(x)) && old(Tile(x)) && old(Apart(h, x));
        assert x.base != h.base;
      }
      forall b | b in mapped ensures RegionOk(b) { assert old(RegionOk(b)); }
      forall x, y | x in blocks && y in blocks ensures Apart(x, y) { assert old(Apart(x, y)); }
    }

    /** Line 178 of free: the region of a block that fills it goes back to the page tables. */
    method ReturnRegion(header: Header)
      requires Pending(header) && header.pageFlink == null && header.pageBlink == null
      modifies this`headers, this`blocks, this`mapped, this`trace
      ensures Valid() && blocks == old(blocks) - {header}
      ensures header.base in old(mapped) && mapped == old(mapped) - {header.base}
      ensures trace == old(trace) + [Unmap(header.base)]
    {
      assert Tile(header);
      PageUnmap(header.addr, PageCount(header.size));
      headers := headers - {header.addr};
      blocks := blocks - {header};
      UnmappingKeepsTiles(header);
      forall x | x in blocks ensures Settled(x) && Coalesced(x) && Signed(x) {
        assert old(Settled(x)) && old(Tile(x)) && old(Signed(x)) && old(Tile(header));
        assert old(x.pageFlink != header ==> Coalesced(x));
      }
    }

    /** complete_pages[index]++ */
    method CountIn(header: Header, index: nat)
      requires Pending(header) && Counted() && index < CLASSES
      modifies completePages, this`cache
      ensures Pending(header) && Counted() && cache == old(cache) + [In(index)]
      ensures completePages[index] == (old(completePages[index]) + 1) % 256
      ensures forall k :: 0 <= k < CLASSES && k != index ==> completePages[k] == old(completePages[k])
    {
      hide Balance;
      completePages[index] := (completePages[index] + 1) % 256;
      Note(In(index));
    }

    /** Lines 175-182 of free for a block that fills its region: it is released, or counted in and listed. */
    method FinishWhole(header: Header, index: nat)
      requires Pending(header) && Tallied() && index < CLASSES && (small ==> index == 0)
      requires header.pageFlink == null && header.pageBlink == null
      modifies this`listed, this`clock, this`headers, this`blocks, this`mapped, this`trace, this`cache
      modifies freeBlocks, completePages
      modifies listed`flink, listed`blink, header`flink, header`index, header`stamp
      ensures Valid() && Tallied() && blocks <= old(blocks)
      ensures mapped == old(mapped) - (if old(completePages[index]) == MAX_COMPLETE then {header.base} else {})
      ensures trace == old(trace) + UnmapCalls(header.base, old(completePages[index]) == MAX_COMPLETE)
      ensures cache == old(cache) + if old(completePages[index]) == MAX_COMPLETE then [] else [In(index)]
    {
      if completePages[index] == MAX_COMPLETE {
        ReturnRegion(header);
      } else {
        CountIn(header, index);
        ListFreed(header);
      }
    }

    /** Lines 175-182 of free. */
    method FinishFree(header: Header, index: nat)
      requires Pending(header) && Tallied() && index < CLASSES && (small ==> index == 0)
      requires header.pageFlink == null || header.pageFlink.used
      requires header.pageBlink == null || header.pageBlink.used
      modifies this`listed, this`clock, this`headers, this`blocks, this`mapped, this`trace, this`cache
      modifies freeBlocks, completePages
      modifies listed`flink, listed`blink, header`flink, header`index, header`stamp
      ensures Valid() && Tallied() && blocks <= old(blocks)
      ensures mapped == old(mapped) - (if header.pageFlink == null && header.pageBlink == null
        && old(completePages[index]) == MAX_COMPLETE then {header.base} else {})
      ensures trace == old(trace) + UnmapCalls(header.base, header.pageFlink == null && header.pageBlink == null
        && old(completePages[index]) == MAX_COMPLETE)
      ensures cache ==
        old(cache) + if old(Alone(header) && completePages[index] != MAX_COMPLETE) then [In(index)] else []
    {
      if header.pageFlink == null && header.pageBlink == null {
        FinishWhole(header, index);
      } else {
        ListFreed(header);
      }
    }

    /** Lines 172-173 of free: one round at most of each loop merges the freed block with its unused neighbours. */
    method Coalesce(freed: Header) returns (header: Header)
      requires Pending(freed)
      modifies this`headers, this`blocks, this`listed, freeBlocks
      modifies blocks`size, blocks`pageFlink, blocks`pageBlink, blocks`flink, blocks`blink
      ensures Pending(header) && header.base == freed.base
      ensures header.pageBlink == null || header.pageBlink.used
      ensures header.pageFlink == null || header.pageFlink.used
      ensures header.pageBlink == null <==> old(LeftEnd(freed))
      ensures header.pageFlink == null <==> old(RightEnd(freed))
      ensures blocks <= old(blocks) && Whole() == old(Whole())
    {
      ghost var rounds;
      header, rounds := MeltLeft(freed);
      rounds := EatRight(header);
    }

    /** free(h) returns the region of `h`: after merging it is one block, and the cache of the class of `h` is full. */
    ghost predicate Returns(h: Header)
      requires completePages.Length == CLASSES
      reads completePages, h, if h.pageBlink == null then {} else {h.pageBlink}
      reads if h.pageFlink == null then {} else {h.pageFlink}
    {
      && LeftEnd(h) && RightEnd(h) && HEADER < h.size <= LARGEST
      && completePages[ClassOf(h.size - HEADER)] == MAX_COMPLETE
    }

    /** free(h) lists a whole region: after merging `h` is one, and the cache of the class of `h` is not full. */
    ghost function KeepEvents(h: Header): seq<CacheEvent>
      requires completePages.Length == CLASSES
      reads completePages, h, if h.pageBlink == null then {} else {h.pageBlink}
      reads if h.pageFlink == null then {} else {h.pageFlink}
    {
      if LeftEnd(h) && RightEnd(h) && HEADER < h.size <= LARGEST
        && completePages[ClassOf(h.size - HEADER)] != MAX_COMPLETE
      then [In(ClassOf(h.size - HEADER))] else []
    }

    /** Lines 169-173 of free: the block is unused, and merged with its unused neighbours. */
    method Detach(header: Header) returns (merged: Header)
      requires Valid() && Tallied() && header in live
      modifies this`headers, this`blocks, this`listed, this`live, freeBlocks, header`used
      modifies blocks`size, blocks`pageFlink, blocks`pageBlink, blocks`flink, blocks`blink
      ensures Pending(merged) && Tallied() && live == old(live) - {header} && merged.base == header.base
      ensures merged.pageBlink == null || merged.pageBlink.used
      ensures merged.pageFlink == null || merged.pageFlink.used
      ensures merged.pageBlink == null <==> old(LeftEnd(header))
      ensures merged.pageFlink == null <==> old(RightEnd(header))
      ensures blocks <= old(blocks)
    {
      MarkUnused(header);
      merged := Coalesce(header);
    }

    /** Lines 168-182 of free. */
    method Release(header: Header)
      requires Valid() && Tallied() && header in live
      modifies this`headers, this`blocks, this`mapped, this`trace, this`listed, this`live, this`clock, this`cache
      modifies freeBlocks, completePages
      modifies blocks`used, blocks`size, blocks`index, blocks`stamp
      modifies blocks`flink, blocks`blink, blocks`pageFlink, blocks`pageBlink
      ensures Valid() && Tallied() && live == old(live) - {header} && blocks <= old(blocks)
      ensures mapped == old(mapped) - if old(Returns(header)) then {header.base} else {}
      ensures trace == old(trace) + UnmapCalls(header.base, old(Returns(header)))
      ensures cache == old(cache) + old(KeepEvents(header))
    {
      hide Tallied, LeftEnd, RightEnd, Whole, Coalesced, Signed, Settled, Tiled, Linked, Known;
      var index := ReleaseClass(header);
      var merged := Detach(header);
      FinishFree(merged, index);
    }

    /** Line 168 of free: the class is computed before merging. */
    method ReleaseClass(header: Header) returns (index: nat)
      requires Valid() && Tallied() && header in live
      ensures HEADER < header.size <= LARGEST && index == ClassOf(header.size - HEADER) < CLASSES
      ensures small ==> index == 0
    {
      assert Settled(header) && Tile(header);
      index := GetIndex(header.size - HEADER);
      assert small ==> mapped[header.base] == 1;
    }

    /** The base of the region that free(ptr) returns, if it returns one. */
    ghost function Returned(ptr: nat): set<nat>
      requires completePages.Length == CLASSES
      reads this`headers, this`live, completePages, headers.Values
      reads set h | h in headers.Values && h.pageBlink != null :: h.pageBlink
      reads set h | h in headers.Values && h.pageFlink != null :: h.pageFlink
    {
      if Live(ptr) && Returns(headers[ptr - HEADER]) then {headers[ptr - HEADER].base} else {}
    }

    /** The call of page_unmap that free(ptr) makes, if it makes one. */
    ghost function FreeCalls(ptr: nat): seq<PageCall>
      requires completePages.Length == CLASSES
      reads this`headers, this`live, completePages, headers.Values
      reads set h | h in headers.Values && h.pageBlink != null :: h.pageBlink
      reads set h | h in headers.Values && h.pageFlink != null :: h.pageFlink
    {
      if Live(ptr) then UnmapCalls(headers[ptr - HEADER].base, Returns(headers[ptr - HEADER])) else []
    }

    /** What free(ptr) does to the whole free regions. */
    ghost function FreeEvents(ptr: nat): seq<CacheEvent>
      requires completePages.Length == CLASSES
      reads this`headers, this`live, completePages, headers.Values
      reads set h | h in headers.Values && h.pageBlink != null :: h.pageBlink
      reads set h | h in headers.Values && h.pageFlink != null :: h.pageFlink
    {
      if Live(ptr) then KeepEvents(headers[ptr - HEADER]) else []
    }

    /** The payload of `p` is gone; what is unmapped and what is listed follows from the state before. */
    twostate predicate Freed(p: nat)
      requires completePages.Length == CLASSES
      reads this, completePages, live, mem
    {
      && Contents() == old(Contents()) - {p}
      && mapped == old(mapped) - old(Returned(p)) && trace == old(trace) + old(FreeCalls(p))
      && cache == old(cache) + old(FreeEvents(p))
    }

    /** Lines 168-182 of free, for a pointer in use. */
    method FreeLive(ptr: nat)
      requires Valid() && Tallied() && ptr in Contents()
      modifies this, freeBlocks, completePages, blocks
      ensures Valid() && Tallied() && blocks <= old(blocks) && small == old(small)
      ensures Freed(ptr)
    {
      hide Tallied;
      ghost var h := headers[ptr - HEADER];
      assert Tile(h);
      Release(headers[ptr - HEADER]);
      ContentsShrunk(ptr);
    }

    /** free; a pointer without the signature in front of it is ignored. */
    method Free(ptr: nat)
      requires Valid() && Tallied()
      requires ptr == 0 || ptr in Contents() ||
        (HEADER <= ptr && ptr - HEADER + 4 <= mem.Length && !Signature(ptr - HEADER))
      modifies this, freeBlocks, completePages, blocks
      ensures Valid() && Tallied() && blocks <= old(blocks) && small == old(small)
      ensures Freed(ptr)
    {
      assert mem.Length == MEMORY && completePages.Length == CLASSES;
      assert ptr in Contents() ==> Live(ptr);
      if Live(ptr) { LiveIsSigned(ptr); }
      hide Valid, Tallied, Freed, Contents, Live, Signature;
      if ptr == 0 {
        NotLive(ptr);
        return;
      }
      if !Signature(ptr - HEADER) {
        NotLive(ptr);
        return;
      }
      FreeLive(ptr);
    }

    /** Freeing a pointer that is not in use changes nothing. */
    twostate lemma NotLive(p: nat)
      requires Valid() && completePages.Length == CLASSES && !old(Live(p)) && Contents() == old(Contents())
      requires mapped == old(mapped) && trace == old(trace) && cache == old(cache)
      ensures Freed(p)
    {
    }

    /** `p` refers to a block of class `k` that fills its region. */
    ghost predicate WholeLive(p: nat, k: nat)
      reads this`headers, this`live, live
    {
      && Live(p)
      && var h := headers[p - HEADER];
         Alone(h) && HEADER < h.size <= LARGEST && ClassOf(h.size - HEADER) == k
    }

    /** A block that fills its region does so until it is freed: no block of the region can appear. */
    twostate lemma WholeStays(q: nat)
      requires old(Valid()) && Valid() && blocks <= old(blocks) && completePages.Length == CLASSES
      requires old(Live(q)) && Live(q) && old(Alone(headers[q - HEADER]))
      requires forall b <- mapped :: b in old(mapped) && mapped[b] == old(mapped)[b]
      ensures Alone(headers[q - HEADER]) && headers[q - HEADER] == old(headers[q - HEADER])
      ensures headers[q - HEADER].size == old(headers[q - HEADER].size)
    {
      var h: Header := headers[q - HEADER];
      assert h in blocks && old(Here(h)) && old(Tile(h)) && Tile(h);
      forall x | x in blocks && x.base == h.base ensures x == h { assert old(Tile(x)) && old(Apart(h, x)); }
    }

    lemma LiveIsSigned(p: nat)
      requires Valid() && Live(p)
      ensures HEADER <= p && p - HEADER + 4 <= mem.Length && Signature(p - HEADER)
    {
      assert Signed(headers[p - HEADER]) && headers[p - HEADER].addr == p - HEADER;
    }

    // ---------------------------------------------------------------- krealloc and the clients

    /** Writing only inside the payload of `h` breaks nothing. */
    twostate lemma PayloadWritten(h: Header)
      requires old(Valid()) && h in old(live) && mem.Length == MEMORY
      requires forall i :: 0 <= i < MEMORY && mem[i] != old(mem[i]) ==>
        h.addr + HEADER <= i < h.addr + HEADER + old(h.reqSize)
      requires blocks == old(blocks) && live == old(live)
      requires forall b <- blocks :: b.reqSize == old(b.reqSize)
      ensures forall x {:trigger Signed(x)} :: x in blocks ==> Signed(x)
      ensures forall b :: b in live && b != h ==> Payload(b) == old(Payload(b))
    {
      assert old(Settled(h)) && old(Tile(h));
      forall x | x in blocks
        ensures Signed(x) && (x in live && x != h ==> Payload(x) == old(Payload(x)))
      {
        assert old(Signed(x)) && old(Settled(x)) && old(Tile(x)) && old(Apart(h, x)) && old(RegionOk(x.base));
        if x in live && x != h { SamePayload(x); }
      }
    }

    twostate lemma ContentsWritten(p: nat)
      requires old(Known()) && old(Live(p)) && live == old(live) && headers == old(headers)
      requires forall b :: b in live && b != old(headers[p - HEADER]) ==> Payload(b) == old(Payload(b))
      ensures p in Contents() && Contents() == old(Contents())[p := Payload(headers[p - HEADER])]
    {
      forall q: nat | Live(q) && q != p
        ensures old(Live(q)) && Payload(headers[q - HEADER]) == old(Payload(headers[q - HEADER]))
      {
        assert old(headers[q - HEADER].addr) == q - HEADER && old(headers[p - HEADER].addr) == p - HEADER;
      }
      assert Live(p);
      forall q: nat ensures q in Contents() <==> q in old(Contents()) || q == p { assert Live(q) <==> old(Live(q)); }
    }

    lemma PayloadRange(h: Header)
      requires Valid() && h in live
      ensures h.addr + HEADER + h.reqSize <= MEMORY && |Payload(h)| == h.reqSize
    {
      assert Settled(h) && Tile(h) && RegionOk(h.base);
    }

    /** A store to byte `i` of the payload of `h`. */
    method WriteByte(ghost h: Header, a: nat, b: byte)
      requires Valid() && h in live && h.addr + HEADER <= a < h.addr + HEADER + |Payload(h)|
      modifies mem
      ensures Valid() && Payload(h) == old(Payload(h)[a - h.addr - HEADER := b])
      ensures forall x :: x in live && x != h ==> Payload(x) == old(Payload(x))
    {
      PayloadRange(h);
      mem[a] := b;
      PayloadWritten(h);
    }

    lemma PointerOf(p: nat)
      requires Valid() && p in Contents()
      ensures Known() && headers[p - HEADER] in live && headers[p - HEADER].addr == p - HEADER
      ensures Contents()[p] == Payload(headers[p - HEADER]) && mem.Length == MEMORY
    {
    }

    /** A client stores a byte in a payload it holds. */
    method Poke(ptr: nat, i: nat, b: byte)
      requires Valid() && Tallied() && ptr in Contents() && i < |Contents()[ptr]|
      modifies mem
      ensures Valid() && Tallied()
      ensures Contents() == old(Contents())[ptr := old(Contents())[ptr][i := b]]
    {
      hide Valid, Tallied, Payload;
      PointerOf(ptr);
      WriteByte(headers[ptr - HEADER], ptr + i, b);
      ContentsWritten(ptr);
    }

    /** memcpy, byte by byte upwards */
    method Memcpy(dst: nat, src: nat, n: nat)
      requires dst + n <= mem.Length && src + n <= mem.Length
      requires dst + n <= src || src + n <= dst
      modifies mem
      ensures mem[dst..dst + n] == old(mem[src..src + n])
      ensures forall i :: 0 <= i < mem.Length && !(dst <= i < dst + n) ==> mem[i] == old(mem[i])
    {
      for k := 0 to n
        invariant forall i :: dst <= i < dst + k ==> mem[i] == old(mem[src + (i - dst)])
        invariant forall i :: 0 <= i < mem.Length && !(dst <= i < dst + k) ==> mem[i] == old(mem[i])
      {
        mem[dst + k] := mem[src + k];
      }
      ghost var copied, source := mem[dst..dst + n], old(mem[src..src + n]);
      forall i | 0 <= i < n ensures copied[i] == source[i] {
        assert mem[dst + i] == old(mem[src + i]);
      }
    }

    /** The memcpy of krealloc. */
    method CopyBytes(ghost to: Header, ghost from: Header, dst: nat, src: nat, n: nat)
      requires Valid() && to in live && from in live && to != from
      requires dst == to.addr + HEADER && src == from.addr + HEADER && n <= |Payload(from)| && n <= |Payload(to)|
      modifies mem
      ensures Valid() && Payload(to) == old(Payload(from)[..n] + Payload(to)[n..])
      ensures forall x :: x in live && x != to ==> Payload(x) == old(Payload(x))
    {
      PayloadRange(to);
      PayloadRange(from);
      assert Settled(to) && Settled(from) && Apart(to, from) && mem.Length == MEMORY;
      hide Valid;
      ghost var head, tail := mem[src..src + n], mem[dst + n..dst + to.reqSize];
      assert Payload(from)[..n] == head && Payload(to)[n..] == tail;
      Memcpy(dst, src, n);
      PayloadWritten(to);
      assert mem[dst + n..dst + to.reqSize] == tail;
      assert mem[dst..dst + to.reqSize] == mem[dst..dst + n] + mem[dst + n..dst + to.reqSize];
    }

    method CopyPayload(q: nat, p: nat, n: nat)
      requires Valid() && Tallied() && p in Contents() && q in Contents() && p != q
      requires n <= |Contents()[p]| && n <= |Contents()[q]|
      modifies mem
      ensures Valid() && Tallied()
      ensures Contents() == old(Contents()[q := Contents()[p][..n] + Contents()[q][n..]])
    {
      ghost var to, from := headers[q - HEADER], headers[p - HEADER];
      assert to.addr == q - HEADER && from.addr == p - HEADER;
      CopyBytes(to, from, q, p, n);
      ContentsWritten(q);
    }

    /** The call of page_unmap behind free(p). */
    lemma FreeCallsTraced(p: nat)
      requires Valid() && completePages.Length == CLASSES && Live(p)
      ensures Traced(mapped, FreeCalls(p), mapped - Returned(p))
    {
      assert Tile(headers[p - HEADER]);
      UnmapCallsTraced(mapped, headers[p - HEADER].base, Returns(headers[p - HEADER]));
    }

    /** free of a pointer in use, and the call of page_unmap behind it. */
    method Deallocate(ptr: nat) returns (ghost calls: seq<PageCall>)
      requires Valid() && Tallied() && ptr in Contents()
      modifies this, freeBlocks, completePages, blocks
      ensures Valid() && Tallied() && blocks <= old(blocks) && small == old(small)
      ensures Contents() == old(Contents()) - {ptr}
      ensures Called(calls) && cache == old(cache) + old(FreeEvents(ptr))
    {
      FreeCallsTraced(ptr);
      calls := FreeCalls(ptr);
      Free(ptr);
    }

    /** Lines 197-199 of krealloc: the bytes that fit move from `p` to `q`, and `p` is freed. */
    method MoveInto(q: nat, p: nat, size: nat) returns (ghost calls: seq<PageCall>)
      requires Valid() && Tallied() && p in Contents() && q in Contents() && p != q && |Contents()[q]| == size
      modifies this, freeBlocks, completePages, mem, blocks
      ensures Valid() && Tallied() && small == old(small) && blocks <= old(blocks)
      ensures Called(calls) && cache == old(cache) + old(FreeEvents(p))
      ensures Replaced(old(Contents()), Contents(), p, q, size)
    {
      PayloadRange(headers[p - HEADER]);
      var had := headers[p - HEADER].reqSize;
      CopyPayload(q, p, if had > size then size else had);
      calls := Deallocate(p);
    }

    /** Lines 196-200 of krealloc. */
    method Reallocate(ptr: nat, size: nat) returns (out: Outcome, ghost calls: seq<PageCall>)
      requires Valid() && Tallied() && 0 < size && size + HEADER <= LARGEST
      requires ptr in Contents() && |Contents()[ptr]| != size
      modifies this, freeBlocks, completePages, mem, blocks
      ensures !out.Null? && (!out.Wild? ==> Valid() && Tallied()) && fresh(blocks - old(blocks))
      ensures small == (old(small) && size + HEADER <= PAGE_SIZE)
      ensures out.Wild? <==> !out.Panic? && old(BareRemainder(size))
      ensures out.Wild? ==> LeftBare(size)
      ensures out.Panic? ==> Contents() == old(Contents()) && !old(Fitting(size)) && !Fitting(size)
      ensures out.Ptr? ==> Moved(old(Contents()), Contents(), ptr, out.p, size)
      ensures Called(calls) && old(cache) + old(ReuseEvents(size)) <= cache
    {
      hide Contents, Valid, Tallied, BareRemainder, Fitting, LeftBare, ServedBy, Traced, Moved, Replaced;
      ghost var s := Contents();
      out, calls := Kmalloc(size);
      if out.Ptr? {
        ghost var m, s1 := mapped, Contents();
        ghost var more := MoveInto(out.p, ptr, size);
        TracedJoin(old(mapped), calls, m, more, mapped);
        calls := calls + more;
        MovedByCopy(s, s1, Contents(), ptr, out.p, size);
      }
    }

    /** What an operation of a client does to the whole free regions; krealloc may also list the old payload's. */
    twostate predicate CacheKept(op: Op)
      requires completePages.Length == CLASSES && Request(op) + HEADER <= LARGEST
      reads this`cache
    {
      match op
      case Malloc(n) => cache == old(cache) + if n == 0 then [] else old(ReuseEvents(n))
      case Free(p) => cache == old(cache) + old(FreeEvents(p))
      case Realloc(p, n) =>
        if Allocates(op, old(Contents())) then old(cache) + old(ReuseEvents(n)) <= cache
        else cache == old(cache) + if n == 0 then old(FreeEvents(p)) else []
      case Write(_, _, _) => cache == old(cache)
    }

    /** krealloc; `calls` are the page calls it makes. */
    method Krealloc(ptr: nat, size: nat) returns (out: Outcome, ghost calls: seq<PageCall>)
      requires Valid() && Tallied() && size + HEADER <= LARGEST
      requires ptr == 0 || ptr in Contents()
      modifies this, freeBlocks, completePages, mem, blocks
      ensures size == 0 <==> out.Null?
      ensures !out.Wild? ==> Valid() && Tallied()
      ensures fresh(blocks - old(blocks))
      ensures small ==
        (old(small) && (Allocates(Realloc(ptr, size), old(Contents())) ==> size + HEADER <= PAGE_SIZE))
      ensures out.Wild? <==>
        !out.Panic? && Allocates(Realloc(ptr, size), old(Contents())) && old(BareRemainder(size))
      ensures out.Wild? ==> LeftBare(size)
      ensures out.Null? ==> Contents() == old(Contents()) - {ptr}
      ensures out.Panic? ==> Contents() == old(Contents()) && Allocates(Realloc(ptr, size), old(Contents()))
      ensures out.Panic? ==> !old(Fitting(size)) && !Fitting(size)
      ensures ptr == 0 && out.Ptr? ==> Allocated(old(Contents()), Contents(), out.p, size)
      ensures ptr != 0 && out.Ptr? ==> Moved(old(Contents()), Contents(), ptr, out.p, size)
      ensures Called(calls) && CacheKept(Realloc(ptr, size))
    {
      hide Tallied, BareRemainder, Fitting, LeftBare;
      if ptr == 0 {
        out, calls := Kmalloc(size);
        return;
      }
      if size == 0 {
        calls := Deallocate(ptr);
        return Null, calls;
      }
      PayloadRange(headers[ptr - HEADER]);
      if headers[ptr - HEADER].reqSize == size {
        TracedNone(mapped);
        return Ptr(ptr), [];
      }
      out, calls := Reallocate(ptr, size);
    }

    /** Is `p` a pointer in use? */
    method InUse(p: nat) returns (yes: bool)
      requires Valid()
      ensures yes <==> p in Contents()
    {
      if HEADER <= p && p - HEADER in headers {
        assert Settled(headers[p - HEADER]);
        return headers[p - HEADER].used;
      }
      return false;
    }

    method ApplyWrite(p: nat, i: nat, b: byte)
      requires Valid() && Tallied()
      modifies mem
      ensures Valid() && Tallied() && Step(old(Contents()), Write(p, i, b), Contents())
    {
      hide Tallied;
      var yes := InUse(p);
      if yes {
        PayloadRange(headers[p - HEADER]);
        if i < headers[p - HEADER].reqSize { Poke(p, i, b); }
      }
    }

    method ApplyFree(p: nat) returns (ghost calls: seq<PageCall>)
      requires Valid() && Tallied()
      modifies this, freeBlocks, completePages, blocks
      ensures Valid() && Tallied() && Step(old(Contents()), HeapSpec.Free(p), Contents()) && small == old(small)
      ensures Called(calls) && CacheKept(HeapSpec.Free(p)) && fresh(blocks - old(blocks))
    {
      hide Valid, Tallied;
      assert p in Contents() <==> Live(p);
      calls := [];
      TracedNone(mapped);
      var yes := InUse(p);
      if yes { calls := Deallocate(p); }
    }

    method ApplyRealloc(p: nat, n: nat) returns (end: Ending, ghost calls: seq<PageCall>)
      requires Valid() && Tallied() && n + HEADER <= LARGEST
      modifies this, freeBlocks, completePages, mem, blocks
      ensures fresh(blocks - old(blocks)) && Called(calls) && CacheKept(Realloc(p, n))
      ensures !end.WroteWild? ==> Valid() && Tallied()
      ensures end.Done? ==> Step(old(Contents()), Realloc(p, n), Contents())
      ensures end.WroteWild? <==>
        !end.Panicked? && Allocates(Realloc(p, n), old(Contents())) && old(BareRemainder(n))
      ensures end.WroteWild? ==> LeftBare(n)
      ensures end.Panicked? ==> Contents() == old(Contents()) && Allocates(Realloc(p, n), old(Contents()))
      ensures end.Panicked? ==> !old(Fitting(n)) && !Fitting(n)
      ensures small == (old(small) && (Allocates(Realloc(p, n), old(Contents())) ==> n + HEADER <= PAGE_SIZE))
    {
      hide Valid, Tallied, BareRemainder, Fitting, LeftBare;
      end, calls := Done, [];
      TracedNone(mapped);
      var yes := InUse(p);
      if p == 0 || yes {
        var out;
        out, calls := Krealloc(p, n);
        end := EndOf(out);
      }
    }

    /**
     * One client operation, and the page calls it makes; the client neither frees, resizes nor writes through a pointer
     * that it does not hold. It ends with a write behind free_blocks exactly if the block that serves it leaves a bare
     * header, unless page_map panics, which it can only do if no listed block fits.
     */
    method Apply(op: Op) returns (end: Ending, ghost calls: seq<PageCall>)
      requires Valid() && Tallied() && Request(op) + HEADER <= LARGEST
      modifies this, freeBlocks, completePages, mem, blocks
      ensures fresh(blocks - old(blocks)) && Called(calls) && CacheKept(op)
      ensures !end.WroteWild? ==> Valid() && Tallied()
      ensures end.Done? ==> Step(old(Contents()), op, Contents())
      ensures end.WroteWild? <==>
        !end.Panicked? && Allocates(op, old(Contents())) && old(BareRemainder(Request(op)))
      ensures end.WroteWild? ==> LeftBare(Request(op))
      ensures end.Panicked? ==> Contents() == old(Contents()) && Allocates(op, old(Contents()))
      ensures end.Panicked? ==> !old(Fitting(Request(op))) && !Fitting(Request(op))
      ensures small == (old(small) && (Allocates(op, old(Contents())) ==> Request(op) + HEADER <= PAGE_SIZE))
    {
      hide Valid, Tallied, BareRemainder, Fitting, LeftBare;
      end := Done;
      match op {
        case Malloc(n) =>
          var out;
          out, calls := Kmalloc(n);
          end := EndOf(out);
        case Free(p) =>
          calls := ApplyFree(p);
        case Realloc(p, n) =>
          end, calls := ApplyRealloc(p, n);
        case Write(p, i, b) =>
          calls := [];
          TracedNone(mapped);
          ApplyWrite(p, i, b);
      }
    }

    /**
     * Any run of client operations is a run of the abstract allocator, up to the first panic, for which no listed block
     * fits, or the first bare header, which is then in the heap. `calls` are its calls of page_map and page_unmap. It
     * describes the kernel's memory as long as the regions stay mapped.
     */
    method Run(ops: seq<Op>)
      returns (done: nat, end: Ending, ghost history: seq<Store>, ghost calls: seq<PageCall>)
      requires Valid() && Tallied() && forall op <- ops :: Request(op) + HEADER <= LARGEST
      modifies this, freeBlocks, completePages, mem, blocks
      ensures done <= |ops| && Steps(history, ops[..done]) && history[0] == old(Contents())
      ensures (end.Done? <==> done == |ops|) && Called(calls) && old(cache) <= cache
      ensures !end.WroteWild? ==> Valid() && Tallied() && Contents() == history[done]
      ensures end.Panicked? ==> Allocates(ops[done], history[done]) && !Fitting(Request(ops[done]))
      ensures end.WroteWild? ==> Allocates(ops[done], history[done]) && LeftBare(Request(ops[done]))
      ensures old(small) && (forall op <- ops :: Request(op) + HEADER <= PAGE_SIZE) ==> small
    {
      hide Contents, Valid, Tallied, BareRemainder, Fitting, LeftBare, Step;
      done, end, history, calls := 0, Done, [Contents()], [];
      TracedNone(mapped);
      while done < |ops|
        invariant done <= |ops| && Steps(history, ops[..done]) && history[0] == old(Contents())
        invariant end.Done? && Valid() && Tallied() && Contents() == history[done]
        invariant Called(calls) && old(cache) <= cache && fresh(blocks - old(blocks))
        invariant old(small) && (forall op <- ops :: Request(op) + HEADER <= PAGE_SIZE) ==> small
      {
        ghost var m := mapped;
        ghost var more;
        end, more := Apply(ops[done]);
        TracedJoin(old(mapped), calls, m, more, mapped);
        calls := calls + more;
        if !end.Done? { return; }
        StepsExtend(history, ops[..done], ops[done], Contents());
        assert ops[..done + 1] == ops[..done] + [ops[done]];
        history := history + [Contents()];
        done := done + 1;
      }
    }
  }
}
