/** The regions of the heap are pages of the address space: what page_map and page_unmap really do to them. */
module HeapPages {
  import opened AddressSpaces
  import opened Basics
  import opened FrameAllocation
  import opened HeapSizes
  import opened HeapSpec
  import opened KernelHeap
  import opened PageCalls
  import opened RegionPages

  /** The pages that are mapped, outside of the window of the tables. */
  ghost function MappedPages(space: AddressSpace): Pages
    requires space.Tables()
    reads space.phys, space.frames
  {
    iset q: nat | q / 1024 < 1023 && space.Mapped(q / 1024, q % 1024)
  }

  lemma PageIndices(i: nat, j: nat)
    requires j < ENTRIES
    ensures (i * 1024 + j) / 1024 == i && (i * 1024 + j) % 1024 == j && First(MakeAddress(i, j)) == i * 1024 + j
  {
    assert MakeAddress(i, j) == (i * 1024 + j) * 0x1000;
  }

  lemma PageInRun(q: nat, i: nat, j: nat, n: nat)
    requires j + n <= ENTRIES
    ensures i * 1024 + j <= q < i * 1024 + j + n <==> q / 1024 == i && j <= q % 1024 < j + n
  {
  }

  // ---------------------------------------------------------------- page_map

  lemma HoleIsUnmapped(space: AddressSpace, i: nat, j: nat, n: nat)
    requires space.Tables() && i < 1023 && space.Hole(i, j, n)
    ensures forall r :: i * 1024 + j <= r < i * 1024 + j + n ==> r !in MappedPages(space)
  {
    forall r | i * 1024 + j <= r < i * 1024 + j + n ensures r !in MappedPages(space) {
      PageInRun(r, i, j, n);
      assert !space.Mapped(i, r % 1024);
    }
  }

  /** page_map(NULL, ...) in terms of page numbers: `n` unmapped pages of one table, from page `q` on, become mapped. */
  method MapRun(space: AddressSpace, n: nat, flags: nat) returns (r: MapResult, ghost q: nat)
    requires space.Valid() && 1 <= n <= ENTRIES && space.frames.Next() + n + 1 <= BOOT_TABLES
    modifies space`pages, space.frames, space.frames.bitmap, space.frames.currentFrames, space.phys
    ensures space.Valid() && space.frames.Next() <= old(space.frames.Next()) + n + 1
    ensures r.NoSpace? <==> old(space.NoHoleBelow(space.SearchStart(flags), ENTRIES, n))
    ensures !r.NoSpace? ==> old(space.LowestHole(space.SearchStart(flags), q / 1024, q % 1024, n))
    ensures r.InDirectory? <==> !r.NoSpace? && q / 1024 == 1023
    ensures r.Null? <==> !r.NoSpace? && q == 0
    ensures r.Address? ==> r.addr == q * PAGE_SIZE && q / 1024 < 1023 && q % 1024 + n <= ENTRIES
    ensures r.Address? ==> forall x :: q <= x < q + n ==> x !in old(MappedPages(space))
    ensures r.Address? ==> MappedPages(space) == AfterMap(old(MappedPages(space)), q, n)
    ensures r.NoSpace? || r.InDirectory? ==> MappedPages(space) == old(MappedPages(space))
  {
    ghost var i, j;
    ghost var p := MappedPages(space);
    ghost var holes := iset i: nat, j: nat | i < 1023 && space.Hole(i, j, n) :: (i, j);
    forall i: nat, j: nat {:trigger (i, j) in holes} | (i, j) in holes
      ensures forall r :: i * 1024 + j <= r < i * 1024 + j + n ==> r !in p
    {
      HoleIsUnmapped(space, i, j, n);
    }
    r, i, j := space.MapAnywhere(n, flags);
    q := i * 1024 + j;
    if !r.NoSpace? { PageIndices(i, j); }
    if r.Address? {
      assert (i, j) in holes;
      RunMapped((space, i, j, n, old(space.FirstFrame(i)), Flags(flags)));
    }
  }

  /** What page_map maps at (i, j), in terms of page numbers: `n` frames from `f` on, with the bits `b`. */
  twostate lemma RunMapped(at: (AddressSpace, nat, nat, nat, nat, nat))
    requires old(at.0.Tables()) && at.0.Tables() && at.1 < 1023 && at.2 + at.3 <= ENTRIES
    requires at.0.MappedRun(old(at.0.View()), old(at.0.pages).Keys, at.1, at.2, at.3, at.4, at.5)
    ensures MappedPages(at.0) == AfterMap(old(MappedPages(at.0)), at.1 * 1024 + at.2, at.3)
  {
    var (space, i, j, n, f, b) := at;
    var q := i * 1024 + j;
    forall x: nat ensures x in MappedPages(space) <==> x in old(MappedPages(space)) || q <= x < q + n {
      PageInRun(x, i, j, n);
      if x / 1024 < 1023 {
        assert space.Lookup(x / 1024, x % 1024).Some? <==> space.Mapped(x / 1024, x % 1024);
        assert old(space.Lookup(x / 1024, x % 1024)).Some? <==> old(space.Mapped(x / 1024, x % 1024));
      }
    }
  }

  /** page_map as heap_allocate_header calls it: pages that no region claims, mapped from then on. */
  method MapRegion(ghost m: Regions, space: AddressSpace, n: nat, flags: nat) returns (r: MapResult, ghost q: nat)
    requires space.Valid() && Regular(m) && Backed(m, MappedPages(space))
    requires 1 <= n <= ENTRIES && space.frames.Next() + n + 1 <= BOOT_TABLES
    modifies space`pages, space.frames, space.frames.bitmap, space.frames.currentFrames, space.phys
    ensures space.Valid() && space.frames.Next() <= old(space.frames.Next()) + n + 1
    ensures r.NoSpace? <==> old(space.NoHoleBelow(space.SearchStart(flags), ENTRIES, n))
    ensures !r.NoSpace? ==> old(space.LowestHole(space.SearchStart(flags), q / 1024, q % 1024, n))
    ensures r.InDirectory? <==> !r.NoSpace? && q / 1024 == 1023
    ensures r.Null? <==> !r.NoSpace? && q == 0
    ensures r.Address? ==> r.addr == q * PAGE_SIZE && First(r.addr) == q
    ensures r.Address? ==> Proper(m, Map(r.addr, n)) && First(r.addr) % 1024 + n <= ENTRIES
    ensures r.Address? ==> MappedPages(space) == AfterCall(m, old(MappedPages(space)), Map(r.addr, n))
    ensures r.Address? ==> Backed(m[r.addr := n], MappedPages(space))
    ensures r.NoSpace? || r.InDirectory? ==> MappedPages(space) == old(MappedPages(space))
  {
    ghost var p := MappedPages(space);
    r, q := MapRun(space, n, flags);
    if r.Address? {
      HoleIsUnclaimed(m, p, q, n);
      NewBase(m, Map(r.addr, n));
      MapBacked(m, p, r.addr, n);
    }
  }

  // ---------------------------------------------------------------- page_unmap

  /** What line 197 looks at, in terms of page numbers. */
  lemma DropsPages(space: AddressSpace, q: nat, n: nat)
    requires space.Tables() && q / 1024 < 1023 && q % 1024 + n < ENTRIES
    ensures space.Drops(q / 1024, q % 1024, n) <==> Drops(MappedPages(space), q, n)
  {
    var i, j, p := q / 1024, q % 1024, MappedPages(space);
    var e := j + n;
    assert space.TableOk(1023) && space.Mapped(1023, 1023);
    if Drops(p, q, n) {
      forall k {:trigger space.Mapped(e, k)} | 0 <= k < ENTRIES && !(e == i && j <= k < e) ensures !space.Mapped(e, k) {
        PageIndices(e, k);
        PageInRun(e * 1024 + k, i, j, n);
        assert e * 1024 + k in p ==> q <= e * 1024 + k < q + n;
      }
    }
    if space.Drops(i, j, n) {
      forall r | r in p && r / 1024 == e ensures q <= r < q + n {
        PageInRun(r, i, j, n);
        assert space.Mapped(e, r % 1024);
      }
    }
  }

  /** page_unmap as free calls it: what becomes of the mapped pages. */
  method UnmapRegion(ghost m: Regions, space: AddressSpace, b: nat, n: nat)
    requires space.Valid() && b in m && m[b] == n && Regular(m) && Backed(m, MappedPages(space))
    requires First(b) % 1024 + n < ENTRIES
    modifies space`pages, space.phys
    ensures space.Valid() && MappedPages(space) == AfterCall(m, old(MappedPages(space)), Unmap(b))
    ensures Backed(m - {b}, MappedPages(space)) <==> old(Harmless(m, MappedPages(space), b))
  {
    ghost var p, q := MappedPages(space), First(b);
    assert RegionBacked(m, p, b) && PageOf(m, b, q) && b == q * PAGE_SIZE;
    BaseIndices(q);
    DropsPages(space, q, n);
    assert space.Mapped(q / 1024, q % 1024) && space.TableOk(q / 1024);
    var ok := space.PageUnmap(b, n);
    forall x: nat ensures x in MappedPages(space) <==> x in AfterUnmap(p, q, n) {
      PageInRun(x, q / 1024, q % 1024, n);
      if x / 1024 < 1023 {
        assert space.Lookup(x / 1024, x % 1024).Some? <==> space.Mapped(x / 1024, x % 1024);
      }
    }
    UnmapBacked(m, p, b);
  }

  lemma BaseIndices(q: nat)
    ensures DirectoryIndex(q * PAGE_SIZE) == q / 1024 && TableIndex(q * PAGE_SIZE) == q % 1024
  {
    AddressRoundTrip(q / 1024, q % 1024);
    assert MakeAddress(q / 1024, q % 1024) == q * PAGE_SIZE;
  }

  // ---------------------------------------------------------------- the layout after boot

  /** As after boot: the kernel's table is full, the next table and table 1 have no pages. */
  ghost predicate Booted(p: Pages) {
    && (forall r :: KERNEL_ENTRY * 1024 <= r < (KERNEL_ENTRY + 1) * 1024 ==> r in p)
    && (forall r {:trigger r in p} :: (KERNEL_ENTRY + 1) * 1024 <= r < (KERNEL_ENTRY + 2) * 1024 ==> r !in p)
    && (forall r {:trigger r in p} :: 1024 <= r < 2048 ==> r !in p)
  }

  /** Only the kernel's table and the directory are present, and boot has filled the kernel's table. */
  lemma BootLayout(space: AddressSpace)
    requires space.Valid() && space.dir == 0x1000 && space.phys[0x1000, KERNEL_ENTRY] == Entry(0x1002, 3)
    requires forall i :: 0 <= i < ENTRIES && i != 1023 && i != KERNEL_ENTRY ==> space.phys[0x1000, i] == Entry(0, 2)
    requires forall k :: 0 <= k < ENTRIES ==> space.phys[0x1002, k].Present()
    ensures Booted(MappedPages(space))
  {
    forall r | KERNEL_ENTRY * 1024 <= r < (KERNEL_ENTRY + 1) * 1024 ensures r in MappedPages(space) {
      assert r / 1024 == KERNEL_ENTRY && space.Mapped(KERNEL_ENTRY, r % 1024);
    }
    forall r | r in MappedPages(space) ensures r / 1024 == KERNEL_ENTRY {
      assert space.Dir(r / 1024).Present();
    }
  }

  /** When the kernel's table is full and `k` pages of the next one are used, the next page for the kernel is there. */
  lemma NextPage(space: AddressSpace, i: nat, j: nat, k: nat)
    requires space.Tables() && space.LowestHole(KERNEL_ENTRY, i, j, 1) && k < ENTRIES
    requires forall r :: KERNEL_ENTRY * 1024 <= r < (KERNEL_ENTRY + 1) * 1024 + k ==> r in MappedPages(space)
    requires (KERNEL_ENTRY + 1) * 1024 + k !in MappedPages(space)
    ensures i == KERNEL_ENTRY + 1 && j == k
  {
    var t := KERNEL_ENTRY + 1;
    PageIndices(t, k);
    PageIndices(i, j);
    assert !space.Mapped(t, k);
    assert space.Hole(t, k, 1);
    assert !space.Mapped(i, j);
    if i < 1023 { assert i * 1024 + j !in MappedPages(space); }
  }

  lemma NextPages(space: AddressSpace, k: nat)
    requires space.Tables() && k < ENTRIES
    requires forall r :: KERNEL_ENTRY * 1024 <= r < (KERNEL_ENTRY + 1) * 1024 + k ==> r in MappedPages(space)
    requires (KERNEL_ENTRY + 1) * 1024 + k !in MappedPages(space)
    ensures !space.NoHoleBelow(KERNEL_ENTRY, ENTRIES, 1)
    ensures forall i: nat, j: nat :: space.LowestHole(KERNEL_ENTRY, i, j, 1) ==> i == KERNEL_ENTRY + 1 && j == k
  {
    PageIndices(KERNEL_ENTRY + 1, k);
    assert !space.Mapped(KERNEL_ENTRY + 1, k);
    assert space.Hole(KERNEL_ENTRY + 1, k, 1);
    forall i: nat, j: nat | space.LowestHole(KERNEL_ENTRY, i, j, 1) ensures i == KERNEL_ENTRY + 1 && j == k {
      NextPage(space, i, j, k);
    }
  }

  /** In the layout after boot the first region of two goes, and page_unmap takes the other one along. */
  method ReleaseAfterBoot(space: AddressSpace, flags: nat) returns (a: nat, b: nat)
    requires space.Valid() && Booted(MappedPages(space)) && flags / 4 % 2 == 0
    requires space.frames.Next() + 4 <= BOOT_TABLES
    modifies space`pages, space.frames, space.frames.bitmap, space.frames.currentFrames, space.phys
    ensures space.Valid() && a != b && !Backed(map[b := 1], MappedPages(space))
  {
    hide Backed, Regular, Drops, Harmless, AfterUnmap, Distant, Unclaimed;
    ghost var t := (KERNEL_ENTRY + 1) * 1024;
    ghost var m: Regions := map[];
    ghost var q;
    var first, second;
    NextPages(space, 0);
    first, q := MapRegion(m, space, 1, flags);
    assert q == t;
    a, m := first.addr, m[first.addr := 1];
    RegularAfter(map[], Map(a, 1));
    NextPages(space, 1);
    second, q := MapRegion(m, space, 1, flags);
    assert q == t + 1;
    b := second.addr;
    RegularAfter(m, Map(b, 1));
    m := m[b := 1];
    ReturnUnmapsOthers(m, MappedPages(space), a, b);
    UnmapRegion(m, space, a, 1);
    assert m - {a} == map[b := 1];
  }

  // ---------------------------------------------------------------- the heap on its pages

  /** Every address of a region lies in one of its blocks. */
  lemma {:induction false} BlockAt(heap: Heap, h: Header, a: nat) returns (x: Header)
    requires heap.Tiled() && h in heap.blocks && h.base in heap.mapped && h.addr <= a < heap.Limit(h.base)
    ensures x in heap.blocks && x.base == h.base && x.addr <= a < x.addr + x.size
    decreases heap.Limit(h.base) - h.addr
  {
    assert heap.Tile(h);
    if a < h.addr + h.size {
      x := h;
    } else {
      x := BlockAt(heap, h.pageFlink, a);
    }
  }

  /** Different regions share no address. */
  lemma RegionsApart(heap: Heap, b: nat, c: nat, a: nat)
    requires heap.Known() && heap.Tiled() && b in heap.mapped && c in heap.mapped && b != c
    ensures !(b <= a < heap.Limit(b) && c <= a < heap.Limit(c))
  {
    if b <= a < heap.Limit(b) && c <= a < heap.Limit(c) {
      assert heap.RegionOk(b) && heap.RegionOk(c);
      var x := BlockAt(heap, heap.headers[b], a);
      var y := BlockAt(heap, heap.headers[c], a);
      ApartBlocks(heap, x, y, a);
    }
  }

  lemma ApartBlocks(heap: Heap, x: Header, y: Header, a: nat)
    requires heap.Tiled() && x in heap.blocks && y in heap.blocks && x != y
    ensures !(x.addr <= a < x.addr + x.size && y.addr <= a < y.addr + y.size)
  {
    assert heap.Apart(x, y);
  }

  /** The regions of a heap are whole pages and share none. */
  lemma HeapIsRegular(heap: Heap)
    requires heap.Known() && heap.Tiled()
    ensures Regular(heap.mapped)
  {
    forall b | b in heap.mapped ensures b % PAGE_SIZE == 0 && 0 < heap.mapped[b] { assert heap.RegionOk(b); }
    forall b, c | b in heap.mapped && c in heap.mapped ensures Distant(heap.mapped, b, c) {
      assert heap.RegionOk(b) && heap.RegionOk(c);
      if b != c {
        RegionsApart(heap, b, c, b);
        RegionsApart(heap, b, c, c);
        PagesApart(b, heap.mapped[b], c, heap.mapped[c]);
      }
    }
  }

  lemma PagesApart(b: nat, n: nat, c: nat, k: nat)
    requires b % PAGE_SIZE == 0 && c % PAGE_SIZE == 0
    requires !(b <= c < b + n * PAGE_SIZE) && !(c <= b < c + k * PAGE_SIZE)
    ensures First(b) + n <= First(c) || First(c) + k <= First(b)
  {
    var x, y := First(b), First(c);
    assert b == x * 0x1000 && c == y * 0x1000;
  }

  /** Every byte of the payload of `h` is in a mapped page. */
  ghost predicate PayloadIn(h: Header, p: Pages)
    reads h`reqSize
  {
    forall a: nat :: h.addr + HEADER <= a < h.addr + HEADER + h.reqSize ==> First(a) in p
  }

  /** While the regions are backed, every payload in use is. */
  lemma PayloadsMapped(heap: Heap, p: Pages)
    requires heap.Valid() && Backed(heap.mapped, p)
    ensures forall h <- heap.live :: PayloadIn(h, p)
  {
    forall h | h in heap.live ensures PayloadIn(h, p) {
      assert heap.Settled(h) && heap.Tile(h) && heap.RegionOk(h.base) && RegionBacked(heap.mapped, p, h.base);
      forall a: nat | h.addr + HEADER <= a < h.addr + HEADER + h.reqSize ensures First(a) in p {
        PageWithin(h.base, heap.mapped[h.base], a);
        assert PageOf(heap.mapped, h.base, First(a));
      }
    }
  }

  lemma PageWithin(b: nat, n: nat, a: nat)
    requires b % PAGE_SIZE == 0 && b <= a < b + n * PAGE_SIZE
    ensures First(b) <= First(a) < First(b) + n
  {
    assert b == First(b) * 0x1000;
  }

  /**
   * A run of the heap on the pages `p`, up to where it stops. Its regions stay mapped, and so the run describes the
   * memory of the kernel, exactly as long as no release that it makes does harm.
   */
  method Run(heap: Heap, ops: seq<Op>, ghost p: Pages)
    returns (done: nat, end: Ending, ghost history: seq<Store>, ghost calls: seq<PageCall>)
    requires heap.Valid() && heap.Tallied() && (forall op <- ops :: Request(op) + HEADER <= LARGEST)
    requires Backed(heap.mapped, p)
    modifies heap, heap.freeBlocks, heap.completePages, heap.mem, heap.blocks
    ensures done <= |ops| && Steps(history, ops[..done]) && history[0] == old(heap.Contents())
    ensures (end.Done? <==> done == |ops|) && (!end.WroteWild? ==> heap.Valid() && heap.Contents() == history[done])
    ensures heap.trace == old(heap.trace) + calls && Traced(old(heap.mapped), calls, heap.mapped)
    ensures Followed(old(heap.mapped), calls) ==>
      (StaysBacked(old(heap.mapped), p, calls) <==> NoHarm(old(heap.mapped), p, calls))
    ensures !end.WroteWild? && Followed(old(heap.mapped), calls) && NoHarm(old(heap.mapped), p, calls) ==>
      forall h <- heap.live :: PayloadIn(h, PagesAfter(old(heap.mapped), p, calls))
  {
    ghost var m := heap.mapped;
    HeapIsRegular(heap);
    done, end, history, calls := heap.Run(ops);
    if Followed(m, calls) {
      StaysBackedIffNoHarm(m, p, calls);
      if NoHarm(m, p, calls) && !end.WroteWild? { PayloadsMapped(heap, PagesAfter(m, p, calls)); }
    }
  }
}
