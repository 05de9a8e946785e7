/** Two-level page tables in physical memory (Memory/vmm.c; section 4.3 of the Intel SDM, volume 3A). */
module AddressSpaces {
  import opened Basics
  import opened Bits
  import opened FrameAllocation
  import opened HeapSizes

  /** PD_ENTRIES and PT_ENTRIES */
  const ENTRIES := 1024
  /** KERNEL_ENTRY_INDEX */
  const KERNEL_ENTRY := 0x300

  /** An entry of a table: the frame number in bits 12-31, the flags in bits 0-11. */
  datatype Entry = Entry(frame: nat, bits: nat) {
    predicate Present() { bits % 2 == 1 }
  }

  /** (flags & 0xFFF) | PRESENT | READ_WRITE */
  function Flags(flags: nat): (b: nat)
    ensures b % 2 == 1 && b < 4096
  {
    flags % 4096 / 4 * 4 + 3
  }

  /** PRESENT (bit 0) and READ_WRITE (bit 1) are set, and of the 12 bits of flags just those that were asked for. */
  ghost predicate AskedFor(bits: nat, flags: nat) {
    bits < 4096 && forall k :: 0 <= k < 12 ==> (Bit(bits, k) <==> k == 0 || k == 1 || Bit(flags, k))
  }

  lemma FlagBits(flags: nat)
    ensures AskedFor(Flags(flags), flags)
  {
    forall k | 0 <= k < 12 ensures Bit(Flags(flags), k) <==> k == 0 || k == 1 || Bit(flags, k) { FlagBit(flags, k); }
  }

  lemma FlagBit(flags: nat, k: nat)
    requires k < 12
    ensures Bit(Flags(flags), k) <==> k == 0 || k == 1 || Bit(flags, k)
  {
    var b := Flags(flags);
    Pow2Values();
    if k >= 2 {
      BitHalf(b, k - 1);
      BitHalf(b / 2, k - 2);
      BitHalf(flags, k - 1);
      BitHalf(flags / 2, k - 2);
      LowBits(flags);
      MaskBit(flags / 4, 10, k - 2);
    }
  }

  lemma LowBits(flags: nat)
    ensures Pow2(10) == 1024 && Flags(flags) / 2 / 2 == flags / 4 % 1024 && flags / 2 / 2 == flags / 4
  {
    Pow2Values();
    assert Pow2(9) == 512;
    Halves(flags, 2048);
    Halves(flags / 2, 1024);
  }

  /** page_make_address, pd_get_entry_index, page_get_entry_index */
  function MakeAddress(pd: nat, pt: nat): nat {
    pd * 0x400000 + pt * 0x1000
  }

  function DirectoryIndex(addr: nat): nat {
    addr / 0x400000
  }

  function TableIndex(addr: nat): (j: nat)
    ensures j < ENTRIES
  {
    addr / 0x1000 % 1024
  }

  lemma AddressRoundTrip(pd: nat, pt: nat)
    requires pt < ENTRIES
    ensures DirectoryIndex(MakeAddress(pd, pt)) == pd && TableIndex(MakeAddress(pd, pt)) == pt
  {
    var a := MakeAddress(pd, pt);
    assert a == 0x400000 * pd + 0x1000 * pt && 0 <= 0x1000 * pt < 0x400000;
    assert a / 0x1000 == 1024 * pd + pt;
  }

  lemma WholePages(n: nat)
    ensures PageCount(n * 0x1000) == n
  {
  }

  /** Null also stands for address 0; a run of the model stops where the code would map into the directory itself. */
  datatype MapResult = Address(addr: nat) | Null | NoSpace | InDirectory

  function Result(addr: nat): MapResult {
    if addr == 0 then Null else Address(addr)
  }

  class AddressSpace {
    const frames: FrameAllocator
    /** Word `j` of frame `f`. */
    const phys: array2<Entry>
    /** The frame of the page directory (cr3). Its last entry refers to itself, so table 1023 is the directory. */
    const dir: nat

    /** The pages that page_map has mapped and page_unmap has not unmapped, with their frames. */
    ghost var pages: map<(nat, nat), nat>

    /**
     * What the boot code and kmain leave: only the kernel's table (frame 0x1002) and the directory itself
     * (frame 0x1000) are present in the directory.
     */
    constructor (frames: FrameAllocator, phys: array2<Entry>)
      requires frames.Valid() && phys.Length0 == WORDS && phys.Length1 == ENTRIES
      requires phys[0x1000, 1023] == Entry(0x1000, 3) && phys[0x1000, KERNEL_ENTRY] == Entry(0x1002, 3)
      requires forall i :: 0 <= i < ENTRIES && i != 1023 && i != KERNEL_ENTRY ==> phys[0x1000, i] == Entry(0, 2)
      ensures this.frames == frames && this.phys == phys && dir == 0x1000 && pages == map[]
      ensures Valid()
    {
      this.frames, this.phys, dir, pages := frames, phys, 0x1000, map[];
    }

    ghost predicate Shape() {
      phys.Length0 == WORDS && phys.Length1 == ENTRIES && dir < WORDS
    }

    /** Entry `i` of the directory. */
    function Dir(i: nat): Entry
      requires Shape() && i < ENTRIES
      reads phys
    {
      phys[dir, i]
    }

    /** Entry `j` of table `i`, as it appears in the window at PD_OFFSET. */
    function Slot(i: nat, j: nat): Entry
      requires Shape() && i < ENTRIES && j < ENTRIES && Dir(i).frame < WORDS
      reads phys
    {
      phys[Dir(i).frame, j]
    }

    ghost predicate TableOk(i: nat)
      requires Shape() && i < ENTRIES
      reads phys, frames
    {
      Dir(i).Present() ==> Dir(i).frame < WORDS && (Dir(i).frame < frames.Next() || Dir(i).frame >= BOOT_TABLES)
    }

    ghost predicate TablesApart(i: nat, k: nat)
      requires Shape() && i < ENTRIES && k < ENTRIES
      reads phys
    {
      i != k && Dir(i).Present() && Dir(k).Present() ==> Dir(i).frame != Dir(k).frame
    }

    /** Tables are different frames that will not be issued again; the directory is one of them. */
    ghost predicate Tables()
      reads phys, frames
    {
      && Shape() && Dir(1023).Present() && Dir(1023).frame == dir
      && (forall i {:trigger TableOk(i)} :: 0 <= i < ENTRIES ==> TableOk(i))
      && (forall i, k {:trigger TablesApart(i, k)} :: 0 <= i < ENTRIES && 0 <= k < ENTRIES ==> TablesApart(i, k))
    }

    /** Page `p` was mapped by page_map: its frame was issued, belongs to no other such page, and is not a table. */
    ghost predicate PageOk(p: (nat, nat))
      requires Tables() && p in pages
      reads this, phys, frames
    {
      p.0 < 1023 && p.1 < ENTRIES && Lookup(p.0, p.1).Some? && Lookup(p.0, p.1).value.frame == pages[p] < frames.Next()
    }

    ghost predicate PagesApart(p: (nat, nat), q: (nat, nat))
      requires p in pages && q in pages
      reads this
    {
      p != q ==> pages[p] != pages[q]
    }

    ghost predicate NoTable(p: (nat, nat), i: nat)
      requires Shape() && p in pages && i < ENTRIES
      reads this, phys
    {
      Dir(i).Present() ==> Dir(i).frame != pages[p]
    }

    ghost predicate Valid()
      reads this, phys, frames, frames.bitmap, frames.currentFrames
    {
      && frames.Valid() && Tables()
      && (forall p {:trigger PageOk(p)} :: p in pages ==> PageOk(p))
      && (forall p, q {:trigger PagesApart(p, q)} :: p in pages && q in pages ==> PagesApart(p, q))
      && (forall p, i {:trigger NoTable(p, i)} :: p in pages && 0 <= i < ENTRIES ==> NoTable(p, i))
    }

    /** The page at (i, j) is mapped. */
    ghost predicate Mapped(i: nat, j: nat)
      requires Tables() && i < ENTRIES && j < ENTRIES
      reads phys, frames
    {
      assert TableOk(i);
      Dir(i).Present() && Slot(i, j).Present()
    }

    ghost function Lookup(i: nat, j: nat): Option<Entry>
      requires Tables() && i < ENTRIES && j < ENTRIES
      reads phys, frames
    {
      assert TableOk(i);
      if Mapped(i, j) then Some(Slot(i, j)) else None
    }

    /** `n` consecutive pages of table `i` from `j` on are not mapped. */
    ghost predicate Hole(i: nat, j: nat, n: nat)
      requires Tables() && i < ENTRIES
      reads phys, frames
    {
      j + n <= ENTRIES && forall k {:trigger Mapped(i, k)} :: j <= k < j + n ==> !Mapped(i, k)
    }

    /** page_is_empty */
    method PageIsEmpty(i: nat) returns (r: bool)
      requires Tables() && i < ENTRIES
      ensures r <==> Hole(i, 0, ENTRIES)
    {
      if !Dir(i).Present() { return true; }
      assert TableOk(i);
      var j := 0;
      while j < ENTRIES
        invariant 0 <= j <= ENTRIES
        invariant forall k {:trigger Mapped(i, k)} :: 0 <= k < j ==> !Mapped(i, k)
      {
        if Slot(i, j).Present() {
          assert Mapped(i, j);
          return false;
        }
        j := j + 1;
      }
      return true;
    }

    /** The inner loops of page_memory_under4mb (lines 117-122): skipping to the last page seen loses no hole. */
    method SearchTable(i: nat, n: nat) returns (r: Option<nat>)
      requires Tables() && i < ENTRIES && Dir(i).Present() && 0 < n
      ensures r.Some? ==> Hole(i, r.value, n)
      ensures r.Some? ==> forall j {:trigger Hole(i, j, n)} :: 0 <= j < r.value ==> !Hole(i, j, n)
      ensures r.None? ==> forall j {:trigger Hole(i, j, n)} :: 0 <= j ==> !Hole(i, j, n)
    {
      assert TableOk(i);
      var i2 := 0;
      while i2 + n <= ENTRIES
        invariant 0 <= i2
        invariant forall j {:trigger Hole(i, j, n)} :: 0 <= j < i2 ==> !Hole(i, j, n)
        decreases ENTRIES - i2
      {
        var i3 := i2;
        while i3 < i2 + n
          invariant i2 <= i3 < i2 + n
          invariant forall k {:trigger Mapped(i, k)} :: i2 <= k < i3 ==> !Mapped(i, k)
        {
          if Slot(i, i3).Present() { break; }
          if i3 == i2 + n - 1 { return Some(i2); }
          i3 := i3 + 1;
        }
        assert Mapped(i, i3);
        forall j | i2 <= j <= i3 ensures !Hole(i, j, n) { }
        i2 := i3 + 1;
      }
      return None;
    }

    /** No hole of the required size starts in the tables from `start` to `end - 1`. */
    ghost predicate NoHoleBelow(start: nat, end: nat, n: nat)
      requires Tables() && end <= ENTRIES
      reads phys, frames
    {
      forall h, k {:trigger Hole(h, k, n)} :: start <= h < end && 0 <= k ==> !Hole(h, k, n)
    }

    /** No hole of the required size starts before `j` in table `i`. */
    ghost predicate FirstHole(i: nat, j: nat, n: nat)
      requires Tables() && i < ENTRIES
      reads phys, frames
    {
      forall k {:trigger Hole(i, k, n)} :: 0 <= k < j ==> !Hole(i, k, n)
    }

    /** page_memory_under4mb: the lowest hole of the required size, in table order; an error only if there is none. */
    method MemoryUnder4mb(length: nat, kernel: bool) returns (addr: nat, err: bool)
      requires Tables() && 0 < length <= 0x400000
      ensures err <==> NoHoleBelow(if kernel then KERNEL_ENTRY else 0, ENTRIES, PageCount(length))
      ensures !err ==> var i, j := DirectoryIndex(addr), TableIndex(addr);
        && (if kernel then KERNEL_ENTRY else 0) <= i < ENTRIES && addr == MakeAddress(i, j)
        && Hole(i, j, PageCount(length)) && FirstHole(i, j, PageCount(length))
        && NoHoleBelow(if kernel then KERNEL_ENTRY else 0, i, PageCount(length))
    {
      var n := length / 0x1000;
      if length % 0x1000 != 0 { n := n + 1; }
      assert n == PageCount(length);
      var start := if kernel then KERNEL_ENTRY else 0;
      var i := start;
      while i < ENTRIES
        invariant start <= i <= ENTRIES && NoHoleBelow(start, i, n)
      {
        var empty := PageIsEmpty(i);
        if empty {
          AddressRoundTrip(i, 0);
          assert Hole(i, 0, n);
          return MakeAddress(i, 0), false;
        }
        assert Dir(i).Present();
        var r := SearchTable(i, n);
        if r.Some? {
          AddressRoundTrip(i, r.value);
          assert Hole(i, r.value, n);
          return MakeAddress(i, r.value), false;
        }
        i := i + 1;
      }
      return 0, true;
    }

    // -------------------------------------------------------------- mapping

    /** Nothing but word `j` of frame `g` differs, unless it lies in frame `f`. */
    twostate predicate OnlyWord(g: nat, j: nat, f: nat)
      requires Shape()
      reads phys
    {
      forall h, k {:trigger phys[h, k]} ::
        0 <= h < WORDS && 0 <= k < ENTRIES && h != f && !(h == g && k == j) ==> phys[h, k] == old(phys[h, k])
    }

    /** The writes of pd_assign_table: the next frame becomes table `i`. */
    twostate predicate Assigned(i: nat)
      requires Shape() && i < ENTRIES
      reads this, phys, frames
    {
      var f := old(frames.Next());
      && 0 <= f < WORDS && frames.Next() == f + 1 && pages == old(pages)
      && Dir(i).frame == f && Dir(i).Present()
      && (forall j :: 0 <= j < ENTRIES ==> phys[f, j] == Entry(0, 0))
      && OnlyWord(dir, i, f)
    }

    /** A new table is a frame of its own, and maps nothing yet. */
    twostate lemma AssignedTables(i: nat)
      requires old(Valid()) && frames.Valid() && i < ENTRIES && !old(Dir(i).Present())
      requires old(frames.Next()) < BOOT_TABLES && Assigned(i)
      ensures Tables()
      ensures forall h, j {:trigger Lookup(h, j)} ::
        0 <= h < 1023 && 0 <= j < ENTRIES ==> Lookup(h, j) == old(Lookup(h, j))
    {
      assert old(TableOk(1023));
      forall h | 0 <= h < ENTRIES ensures TableOk(h) { assert old(TableOk(h)); }
      forall h, k | 0 <= h < ENTRIES && 0 <= k < ENTRIES ensures TablesApart(h, k) {
        assert old(TablesApart(h, k)) && old(TableOk(h)) && old(TableOk(k));
      }
      forall h, j | 0 <= h < 1023 && 0 <= j < ENTRIES ensures Lookup(h, j) == old(Lookup(h, j)) {
        assert old(TableOk(h)) && old(TablesApart(h, 1023));
      }
    }

    twostate lemma AssignedKeeps(i: nat)
      requires old(Valid()) && frames.Valid() && i < ENTRIES && !old(Dir(i).Present())
      requires old(frames.Next()) < BOOT_TABLES && Assigned(i)
      ensures Valid()
    {
      AssignedTables(i);
      assert old(TableOk(1023));
      forall p | p in pages ensures PageOk(p) { assert old(PageOk(p)); }
      forall p, q | p in pages && q in pages ensures PagesApart(p, q) { assert old(PagesApart(p, q)); }
      forall p, h | p in pages && 0 <= h < ENTRIES ensures NoTable(p, h) {
        assert old(NoTable(p, h)) && old(PageOk(p));
      }
    }

    /** page_clean of table `i`; the address of a table is always aligned. */
    method PageClean(i: nat)
      requires Shape() && i < ENTRIES && Dir(i).frame < WORDS && Dir(i).frame != dir
      modifies phys
      ensures forall j :: 0 <= j < ENTRIES ==> phys[old(Dir(i).frame), j] == Entry(0, 0)
      ensures forall g, j {:trigger phys[g, j]} ::
        0 <= g < WORDS && 0 <= j < ENTRIES && g != old(Dir(i).frame) ==> phys[g, j] == old(phys[g, j])
    {
      ghost var f := Dir(i).frame;
      var j := 0;
      while j < ENTRIES
        invariant 0 <= j <= ENTRIES && Dir(i).frame == f
        invariant forall k :: 0 <= k < j ==> phys[f, k] == Entry(0, 0)
        invariant forall g, k {:trigger phys[g, k]} ::
          0 <= g < WORDS && 0 <= k < ENTRIES && g != f ==> phys[g, k] == old(phys[g, k])
      {
        phys[Dir(i).frame, j] := Entry(0, 0);
        j := j + 1;
      }
    }

    /** pd_assign_table */
    method AssignTable(i: nat, flags: nat)
      requires Valid() && i < ENTRIES && !Dir(i).Present() && frames.Next() < BOOT_TABLES
      modifies frames, frames.bitmap, frames.currentFrames, phys
      ensures Valid() && Dir(i) == Entry(old(frames.Next()), Flags(flags)) && frames.Next() == old(frames.Next()) + 1
      ensures AskedFor(Dir(i).bits, flags)
      ensures forall h, j {:trigger Lookup(h, j)} ::
        0 <= h < 1023 && 0 <= j < ENTRIES ==> Lookup(h, j) == old(Lookup(h, j))
    {
      assert TableOk(1023);
      var r := frames.Palloc();
      assert r.value / 0x1000 == old(frames.Next());
      phys[dir, i] := Entry(r.value / 0x1000, Flags(flags));
      FlagBits(flags);
      PageClean(i);
      AssignedTables(i);
      AssignedKeeps(i);
    }

    /** The writes of one round of the loop of page_map: page `at` gets the next frame. */
    twostate predicate MappedOne(at: (nat, nat))
      requires Shape() && at.0 < ENTRIES && at.1 < ENTRIES && old(Dir(at.0).frame) < WORDS
      reads this, phys, frames
    {
      var f := old(frames.Next());
      && frames.Next() == f + 1 && 0 <= f && pages == old(pages)[at := f]
      && phys[old(Dir(at.0).frame), at.1].frame == f && phys[old(Dir(at.0).frame), at.1].Present()
      && OnlyWord(old(Dir(at.0).frame), at.1, WORDS)
    }

    twostate lemma MappedTables(at: (nat, nat))
      requires old(Valid()) && frames.Valid() && at.0 < 1023 && at.1 < ENTRIES && old(Dir(at.0).Present())
      requires old(TableOk(at.0)) && MappedOne(at)
      ensures Tables() && forall i :: 0 <= i < ENTRIES ==> Dir(i) == old(Dir(i))
      ensures Lookup(at.0, at.1) == Some(phys[old(Dir(at.0).frame), at.1])
      ensures forall h, j {:trigger Lookup(h, j)} ::
        0 <= h < 1023 && 0 <= j < ENTRIES && (h, j) != at ==> Lookup(h, j) == old(Lookup(h, j))
    {
      assert old(TablesApart(at.0, 1023)) && old(TableOk(1023));
      forall h | 0 <= h < ENTRIES ensures TableOk(h) { assert old(TableOk(h)); }
      forall h, k | 0 <= h < ENTRIES && 0 <= k < ENTRIES ensures TablesApart(h, k) { assert old(TablesApart(h, k)); }
      forall h, j | 0 <= h < 1023 && 0 <= j < ENTRIES && (h, j) != at ensures Lookup(h, j) == old(Lookup(h, j)) {
        assert old(TableOk(h)) && old(TablesApart(h, at.0));
      }
    }

    twostate lemma MappedKeeps(at: (nat, nat))
      requires old(Valid()) && frames.Valid() && at.0 < 1023 && at.1 < ENTRIES && old(Dir(at.0).Present())
      requires old(TableOk(at.0)) && !old(Mapped(at.0, at.1)) && old(frames.Next()) < BOOT_TABLES && MappedOne(at)
      ensures Valid()
    {
      MappedTables(at);
      forall p | p in pages ensures PageOk(p) {
        if p != at { assert old(PageOk(p)); }
      }
      forall p, q | p in pages && q in pages ensures PagesApart(p, q) {
        if p != at { assert old(PageOk(p)); }
        if q != at { assert old(PageOk(q)); }
        if p != at && q != at { assert old(PagesApart(p, q)); }
      }
      forall p, h | p in pages && 0 <= h < ENTRIES ensures NoTable(p, h) {
        assert old(TableOk(h));
        if p != at { assert old(NoTable(p, h)); }
      }
    }

    /** Lines 168-169 */
    method MapOne(i: nat, j: nat, flags: nat)
      requires Valid() && i < 1023 && j < ENTRIES && Dir(i).Present() && !Mapped(i, j) && frames.Next() < BOOT_TABLES
      modifies this`pages, frames, frames.bitmap, frames.currentFrames, phys
      ensures Valid() && Dir(i) == old(Dir(i)) && frames.Next() == old(frames.Next()) + 1
      ensures pages == old(pages)[(i, j) := old(frames.Next())]
      ensures Lookup(i, j) == Some(Entry(old(frames.Next()), Flags(flags))) && AskedFor(Lookup(i, j).value.bits, flags)
      ensures forall h, k {:trigger Lookup(h, k)} ::
        0 <= h < 1023 && 0 <= k < ENTRIES && (h, k) != (i, j) ==> Lookup(h, k) == old(Lookup(h, k))
    {
      assert TableOk(i) && TablesApart(i, 1023);
      ghost var f := frames.Next();
      var r := frames.Palloc();
      assert r.value / 0x1000 == f;
      phys[Dir(i).frame, j] := Entry(r.value / 0x1000, Flags(flags));
      pages := pages[(i, j) := f];
      FlagBits(flags);
      MappedTables((i, j));
      MappedKeeps((i, j));
    }

    /** What is mapped below the window of the tables. */
    ghost function View(): imap<(nat, nat), Option<Entry>>
      requires Tables()
      reads phys, frames
    {
      imap p: (nat, nat) | p.0 < 1023 && p.1 < ENTRIES :: Lookup(p.0, p.1)
    }

    /**
     * The pages from (i, j) to (i, j + n - 1) are mapped to the frames from `f` on; all others are as in `was`, and
     * these pages have come to those in `had`.
     */
    ghost predicate MappedRun(was: imap<(nat, nat), Option<Entry>>, had: set<(nat, nat)>,
                              i: nat, j: nat, n: nat, f: nat, b: nat)
      requires Tables()
      reads this, phys, frames
    {
      && (forall h: nat, k: nat {:trigger (h, k) in was} :: h < 1023 && k < ENTRIES ==> (h, k) in was)
      && (forall h: nat, k: nat {:trigger Lookup(h, k)} :: h < 1023 && k < ENTRIES ==>
            Lookup(h, k) == if h == i && j <= k < j + n then Some(Entry(f + (k - j), b)) else was[(h, k)])
      && (forall p {:trigger p in pages} :: p in pages <==> p in had || (p.0 == i && j <= p.1 < j + n))
    }

    /** One more page. */
    method MapNext(ghost was: imap<(nat, nat), Option<Entry>>, ghost had: set<(nat, nat)>,
                   i: nat, j: nat, k: nat, ghost f: nat, flags: nat)
      requires Valid() && i < 1023 && j + k < ENTRIES && Dir(i).Present() && !Mapped(i, j + k)
      requires MappedRun(was, had, i, j, k, f, Flags(flags)) && frames.Next() == f + k < BOOT_TABLES
      modifies this`pages, frames, frames.bitmap, frames.currentFrames, phys
      ensures Valid() && Dir(i) == old(Dir(i)) && frames.Next() == f + k + 1
      ensures MappedRun(was, had, i, j, k + 1, f, Flags(flags))
    {
      hide PageOk, PagesApart, NoTable, TablesApart, AskedFor;
      MapOne(i, j + k, flags);
      forall p: (nat, nat) {:trigger p in pages}
        ensures p in pages <==> p in had || (p.0 == i && j <= p.1 < j + k + 1)
      {
        assert p == (i, j + k) <==> p.0 == i && p.1 == j + k;
      }
      forall h: nat, m: nat {:trigger Lookup(h, m)} | h < 1023 && m < ENTRIES
        ensures (h, m) in was && Lookup(h, m) ==
          if h == i && j <= m < j + k + 1 then Some(Entry(f + (m - j), Flags(flags))) else was[(h, m)]
      {
        if (h, m) != (i, j + k) { assert Lookup(h, m) == old(Lookup(h, m)); }
      }
    }

    /** The page behind a run is as it was, and whether it is present says whether it is mapped. */
    lemma BehindRun(was: imap<(nat, nat), Option<Entry>>, had: set<(nat, nat)>, i: nat, j: nat, k: nat, f: nat, b: nat)
      requires Tables() && i < 1023 && j + k < ENTRIES && Dir(i).Present() && MappedRun(was, had, i, j, k, f, b)
      ensures Dir(i).frame < WORDS && (i, j + k) in was
      ensures Slot(i, j + k).Present() <==> was[(i, j + k)].Some?
      ensures Slot(i, j + k).Present() <==> Mapped(i, j + k)
    {
      assert TableOk(i) && (Lookup(i, j + k).Some? <==> Mapped(i, j + k));
    }

    /** Nothing is mapped yet. */
    lemma NoRun(i: nat, j: nat, f: nat, b: nat)
      requires Tables()
      ensures MappedRun(View(), pages.Keys, i, j, 0, f, b)
      ensures forall h, k :: 0 <= h < 1023 && 0 <= k < ENTRIES ==>
        (h, k) in View() && (View()[(h, k)].Some? <==> Mapped(h, k))
    {
    }

    /** The loop of page_map; it stops at the first page that is already mapped. */
    method MapPages(i: nat, j: nat, n: nat, flags: nat) returns (k: nat)
      requires Valid() && i < 1023 && j + n <= ENTRIES && Dir(i).Present() && frames.Next() + n <= BOOT_TABLES
      modifies this`pages, frames, frames.bitmap, frames.currentFrames, phys
      ensures Valid() && k <= n && frames.Next() == old(frames.Next()) + k && Dir(i) == old(Dir(i))
      ensures old(Hole(i, j, k)) && (k < n ==> old(Mapped(i, j + k)))
      ensures MappedRun(old(View()), old(pages).Keys, i, j, k, old(frames.Next()), Flags(flags))
    {
      hide Lookup, Mapped, View, MappedRun, PageOk, PagesApart, NoTable, TableOk, TablesApart, AskedFor;
      k := 0;
      ghost var was, had, f := View(), pages.Keys, frames.Next();
      NoRun(i, j, f, Flags(flags));
      while k < n
        invariant k <= n && Valid() && Dir(i) == old(Dir(i)) && frames.Next() == f + k
        invariant MappedRun(was, had, i, j, k, f, Flags(flags))
        invariant forall m :: j <= m < j + k ==> was[(i, m)].None?
      {
        BehindRun(was, had, i, j, k, f, Flags(flags));
        if Slot(i, j + k).Present() { return; }
        MapNext(was, had, i, j, k, f, flags);
        k := k + 1;
      }
    }

    /** Where a search for the kernel or for a user starts. */
    function SearchStart(flags: nat): nat {
      if flags / 4 % 2 == 0 then KERNEL_ENTRY else 0
    }

    /** The frame from which on page_map hands out pages: a missing table takes one first. */
    ghost function FirstFrame(i: nat): int
      requires Shape() && i < ENTRIES
      reads phys, frames
    {
      if Dir(i).Present() then frames.Next() else frames.Next() + 1
    }

    /** The table of the pages is as before, or new, with the flags that were asked for. */
    twostate predicate TableFor(i: nat, flags: nat)
      requires Shape() && i < ENTRIES
      reads phys, frames
    {
      if old(Dir(i).Present()) then Dir(i) == old(Dir(i))
      else Dir(i).frame == old(frames.Next()) && AskedFor(Dir(i).bits, flags)
    }

    /** page_map at a given address, up to the end of its table; `k` pages are mapped. */
    method MapAt(i: nat, j: nat, n: nat, flags: nat) returns (k: nat)
      requires Valid() && i < 1023 && j + n <= ENTRIES && frames.Next() + n + 1 <= BOOT_TABLES
      modifies this`pages, frames, frames.bitmap, frames.currentFrames, phys
      ensures Valid() && k <= n && old(Hole(i, j, k)) && (k < n ==> old(Mapped(i, j + k))) && TableFor(i, flags)
      ensures MappedRun(old(View()), old(pages).Keys, i, j, k, old(FirstFrame(i)), Flags(flags))
      ensures frames.Next() == old(FirstFrame(i)) + k
    {
      if !Dir(i).Present() { AssignTable(i, flags); }
      label L:
      k := MapPages(i, j, n, flags);
      forall m | j <= m < j + k ensures !old(Mapped(i, m)) {
        assert !old@L(Mapped(i, m)) && old@L(Lookup(i, m)) == old(Lookup(i, m));
      }
      if k < n {
        assert old@L(Mapped(i, j + k)) && old@L(Lookup(i, j + k)) == old(Lookup(i, j + k));
      }
    }

    /** `n` pages from (i, j) on are the lowest hole of this size, from table `start` on. */
    ghost predicate LowestHole(start: nat, i: nat, j: nat, n: nat)
      requires Tables()
      reads phys, frames
    {
      start <= i < ENTRIES && Hole(i, j, n) && NoHoleBelow(start, i, n) && FirstHole(i, j, n)
    }

    /** page_get_free_addr for at most one table of pages, and the indices of the address (lines 155-159). */
    method FreePages(n: nat, flags: nat) returns (addr: nat, err: bool, i: nat, j: nat)
      requires Tables() && 1 <= n <= ENTRIES
      ensures err <==> NoHoleBelow(SearchStart(flags), ENTRIES, n)
      ensures !err ==> LowestHole(SearchStart(flags), i, j, n) && i < ENTRIES && addr == MakeAddress(i, j)
      ensures !err ==> j + n <= ENTRIES && forall k {:trigger Mapped(i, k)} :: j <= k < j + n ==> !Mapped(i, k)
    {
      WholePages(n);
      addr, err := MemoryUnder4mb(n * 0x1000, flags / 4 % 2 == 0);
      i, j := DirectoryIndex(addr), TableIndex(addr);
    }

    /** page_map(NULL, ...): the lowest hole is mapped, and nothing else changes. */
    method MapAnywhere(n: nat, flags: nat) returns (r: MapResult, ghost i: nat, ghost j: nat)
      requires Valid() && frames.Next() + n + 1 <= BOOT_TABLES && 1 <= n <= ENTRIES
      modifies this`pages, frames, frames.bitmap, frames.currentFrames, phys
      ensures Valid()
      ensures r.NoSpace? <==> old(NoHoleBelow(SearchStart(flags), ENTRIES, n))
      ensures !r.NoSpace? ==> old(LowestHole(SearchStart(flags), i, j, n)) && (r.InDirectory? <==> i == 1023)
      ensures r.NoSpace? || r.InDirectory? ==> unchanged(phys, frames) && pages == old(pages)
      ensures r.Null? || r.Address? ==>
        && i < 1023 && r == Result(MakeAddress(i, j)) && TableFor(i, flags)
        && MappedRun(old(View()), old(pages).Keys, i, j, n, old(FirstFrame(i)), Flags(flags))
        && frames.Next() == old(FirstFrame(i)) + n
    {
      hide View, MappedRun, LowestHole, NoHoleBelow, FirstHole, Hole, PageOk, PagesApart, NoTable, AskedFor;
      var a, err, pd, pt := FreePages(n, flags);
      i, j := pd, pt;
      if err { return NoSpace, i, j; }
      if pd == 1023 { return InDirectory, i, j; }
      r := Result(a);
      var k := MapAt(pd, pt, n, flags);
      assert k == n;
    }

    /** page_map at an address, for pages of one table: it fails at the first page that is already mapped. */
    method MapFixed(addr: nat, n: nat, flags: nat) returns (r: MapResult, k: nat)
      requires Valid() && frames.Next() + n + 1 <= BOOT_TABLES
      requires addr != 0 && DirectoryIndex(addr) < 1023 && TableIndex(addr) + n <= ENTRIES
      modifies this`pages, frames, frames.bitmap, frames.currentFrames, phys
      ensures Valid() && k <= n && r == if k < n then Null else Address(addr)
      ensures TableFor(DirectoryIndex(addr), flags)
      ensures var i, j := DirectoryIndex(addr), TableIndex(addr);
        && old(Hole(i, j, k)) && (k < n ==> old(Mapped(i, j + k)))
        && MappedRun(old(View()), old(pages).Keys, i, j, k, old(FirstFrame(i)), Flags(flags))
        && frames.Next() == old(FirstFrame(i)) + k
    {
      k := MapAt(DirectoryIndex(addr), TableIndex(addr), n, flags);
      r := if k < n then Null else Address(addr);
    }

    /** No mapping of a page below the window of the tables is lost or changed. */
    twostate predicate NothingClobbered()
      requires old(Tables()) && Tables()
      reads this, phys, frames
    {
      forall h, k {:trigger Lookup(h, k)} ::
        0 <= h < 1023 && 0 <= k < ENTRIES && old(Mapped(h, k)) ==> Lookup(h, k) == old(Lookup(h, k))
    }

    /**
     * page_map for at most one table of pages, as long as the frames below the boot tables last: the `k` pages from
     * (i, j) on are mapped.
     */
    method PageMap(addr: nat, n: nat, flags: nat) returns (r: MapResult, ghost i: nat, ghost j: nat, ghost k: nat)
      requires Valid() && frames.Next() + n + 1 <= BOOT_TABLES
      requires if addr == 0 then 1 <= n <= ENTRIES else DirectoryIndex(addr) < 1023 && TableIndex(addr) + n <= ENTRIES
      modifies this`pages, frames, frames.bitmap, frames.currentFrames, phys
      ensures Valid() && old(frames.Next()) <= frames.Next() <= old(frames.Next()) + n + 1
      ensures NothingClobbered() && old(pages).Keys <= pages.Keys
      ensures r.NoSpace? <==> addr == 0 && old(NoHoleBelow(SearchStart(flags), ENTRIES, n))
      ensures addr == 0 && !r.NoSpace? ==> old(LowestHole(SearchStart(flags), i, j, n))
      ensures addr == 0 && !r.NoSpace? ==> (r.InDirectory? <==> i == 1023)
      ensures addr == 0 && !r.NoSpace? && !r.InDirectory? ==> k == n && r == Result(MakeAddress(i, j))
      ensures addr != 0 ==> i == DirectoryIndex(addr) && j == TableIndex(addr) && k <= n
      ensures addr != 0 ==> r == (if k < n then Null else Address(addr)) && old(Hole(i, j, k))
      ensures addr != 0 && k < n ==> old(Mapped(i, j + k))
      ensures r.NoSpace? || r.InDirectory? ==> unchanged(phys, frames) && pages == old(pages)
      ensures !r.NoSpace? && !r.InDirectory? ==>
        && i < 1023 && MappedRun(old(View()), old(pages).Keys, i, j, k, old(FirstFrame(i)), Flags(flags))
        && frames.Next() == old(FirstFrame(i)) + k
      ensures !r.NoSpace? && !r.InDirectory? ==> TableFor(i, flags)
      ensures !r.NoSpace? && !r.InDirectory? ==> j + k <= ENTRIES && forall m :: j <= m < j + k ==>
        Lookup(i, m).Some? && AskedFor(Lookup(i, m).value.bits, flags)
      ensures addr == 0 && !r.NoSpace? ==> old(NoHoleBelow(if Bit(flags, 2) then 0 else 0x300, i, n))
      ensures addr == 0 && !r.NoSpace? && !Bit(flags, 2) ==> 0x300 <= i
    {
      FlagBits(flags);
      Pow2Values();
      if addr == 0 {
        r, i, j := MapAnywhere(n, flags);
        k := n;
        forall h, m | 0 <= h < 1023 && 0 <= m < ENTRIES && old(Mapped(h, m)) ensures Lookup(h, m) == old(Lookup(h, m)) {
          assert r.NoSpace? || old(Hole(i, j, n));
        }
      } else {
        var mapped;
        r, mapped := MapFixed(addr, n, flags);
        i, j, k := DirectoryIndex(addr), TableIndex(addr), mapped;
      }
    }

    /** The frames of pages mapped by page_map are pairwise different, and none of them is a table. */
    lemma FramesDistinct(p: (nat, nat), q: (nat, nat), i: nat)
      requires Valid() && p in pages && q in pages && p != q && i < ENTRIES && Dir(i).Present()
      ensures p.0 < 1023 && p.1 < ENTRIES && q.0 < 1023 && q.1 < ENTRIES
      ensures Mapped(p.0, p.1) && Mapped(q.0, q.1)
      ensures Lookup(p.0, p.1).value.frame != Lookup(q.0, q.1).value.frame
      ensures Lookup(p.0, p.1).value.frame != Dir(i).frame
    {
      assert PageOk(p) && PageOk(q) && PagesApart(p, q) && NoTable(p, i);
    }

    // -------------------------------------------------------------- unmapping

    /** The writes of the loop of page_unmap. */
    twostate predicate Cleared(i: nat, j: nat, n: nat)
      requires old(Tables()) && Shape() && i < ENTRIES && j + n <= ENTRIES
      reads phys
    {
      forall g, k {:trigger phys[g, k]} :: 0 <= g < WORDS && 0 <= k < ENTRIES ==>
        phys[g, k] == if g == old(Dir(i).frame) && j <= k < j + n then Entry(0, 0) else old(phys[g, k])
    }

    twostate lemma ClearedTables(at: (nat, nat, nat))
      requires old(Valid()) && frames.Next() == old(frames.Next())
      requires at.0 < 1023 && at.1 + at.2 <= ENTRIES && old(Dir(at.0).Present()) && Cleared(at.0, at.1, at.2)
      ensures Tables() && forall h :: 0 <= h < ENTRIES ==> Dir(h) == old(Dir(h))
      ensures forall h, k {:trigger Lookup(h, k)} :: 0 <= h < ENTRIES && 0 <= k < ENTRIES ==>
        Lookup(h, k) == if h == at.0 && at.1 <= k < at.1 + at.2 then None else old(Lookup(h, k))
    {
      assert old(TablesApart(at.0, 1023));
      forall h | 0 <= h < ENTRIES ensures TableOk(h) { assert old(TableOk(h)); }
      forall h, k | 0 <= h < ENTRIES && 0 <= k < ENTRIES ensures TablesApart(h, k) { assert old(TablesApart(h, k)); }
      forall h, k | 0 <= h < ENTRIES && 0 <= k < ENTRIES
        ensures Lookup(h, k) == if h == at.0 && at.1 <= k < at.1 + at.2 then None else old(Lookup(h, k))
      {
        assert old(TableOk(h)) && old(TablesApart(h, at.0));
      }
    }

    /** The loop of page_unmap. */
    method ClearPages(i: nat, j: nat, n: nat)
      requires Valid() && i < 1023 && j + n <= ENTRIES && Dir(i).Present()
      modifies phys
      ensures Cleared(i, j, n)
    {
      assert TableOk(i) && TablesApart(i, 1023);
      ghost var f := Dir(i).frame;
      var k := 0;
      while k < n
        invariant 0 <= k <= n && Dir(i).frame == f && Cleared(i, j, k)
      {
        phys[Dir(i).frame, j + k] := Entry(0, 0);
        k := k + 1;
      }
    }

    /** pd_remove_empty_pt: the table is no longer in the directory. */
    method DropTable(i: nat)
      requires Tables() && i < 1023
      modifies phys
      ensures Tables()
      ensures forall h, k {:trigger Lookup(h, k)} :: 0 <= h < 1023 && 0 <= k < ENTRIES ==>
        Lookup(h, k) == if h == i then None else old(Lookup(h, k))
      ensures forall h :: 0 <= h < ENTRIES && h != i ==> Dir(h) == old(Dir(h))
      ensures Dir(i) == Entry(0, 2)
    {
      phys[dir, i] := Entry(0, 2);
      forall h | 0 <= h < ENTRIES ensures TableOk(h) { assert old(TableOk(h)); }
      forall h, k | 0 <= h < ENTRIES && 0 <= k < ENTRIES ensures TablesApart(h, k) { assert old(TablesApart(h, k)); }
      forall h, k | 0 <= h < 1023 && 0 <= k < ENTRIES
        ensures Lookup(h, k) == if h == i then None else old(Lookup(h, k))
      {
        assert old(TableOk(h)) && old(TablesApart(h, 1023));
      }
    }

    /** Line 197 looks at the table whose number is the index of the page behind the last one. */
    ghost predicate Drops(i: nat, j: nat, n: nat)
      requires Tables() && i < ENTRIES && j + n < ENTRIES
      reads phys, frames
    {
      if j + n == i then NothingElse(i, j, n) else Hole(j + n, 0, ENTRIES)
    }

    /** No page of table `i` is mapped but those from `j` to `j + n - 1`. */
    ghost predicate NothingElse(i: nat, j: nat, n: nat)
      requires Tables() && i < ENTRIES
      reads phys, frames
    {
      forall k {:trigger Mapped(i, k)} :: 0 <= k < ENTRIES && !(j <= k < j + n) ==> !Mapped(i, k)
    }

    /** After the loop the table that line 197 looks at is empty exactly if it was before, or is the cleared one. */
    twostate lemma ClearedDrops(at: (nat, nat, nat))
      requires old(Tables()) && Tables() && at.0 < 1023 && at.1 + at.2 < ENTRIES
      requires forall h, k {:trigger Lookup(h, k)} :: 0 <= h < ENTRIES && 0 <= k < ENTRIES ==>
        Lookup(h, k) == if h == at.0 && at.1 <= k < at.1 + at.2 then None else old(Lookup(h, k))
      ensures Hole(at.1 + at.2, 0, ENTRIES) <==> old(Drops(at.0, at.1, at.2))
    {
      var e := at.1 + at.2;
      if Hole(e, 0, ENTRIES) {
        forall k {:trigger old(Mapped(e, k))} | 0 <= k < ENTRIES && !(e == at.0 && at.1 <= k < e)
          ensures !old(Mapped(e, k))
        {
          assert !Mapped(e, k) && Lookup(e, k) == old(Lookup(e, k));
        }
        assert e == at.0 ==> old(NothingElse(at.0, at.1, at.2));
      }
      if old(Drops(at.0, at.1, at.2)) {
        forall k {:trigger Mapped(e, k)} | 0 <= k < ENTRIES ensures !Mapped(e, k) {
          assert Lookup(e, k) == if e == at.0 && at.1 <= k < e then None else old(Lookup(e, k));
          assert at.1 <= k < e || !old(Mapped(e, k)) || e != at.0;
        }
      }
    }

    /** The pages that are left keep their frames. */
    twostate lemma UnmappedKeeps(at: nat)
      requires old(Valid()) && frames.Valid() && frames.Next() == old(frames.Next()) && Tables() && at < 1023
      requires forall h :: 0 <= h < ENTRIES && h != at ==> Dir(h) == old(Dir(h))
      requires Dir(at).Present() ==> Dir(at) == old(Dir(at))
      requires forall p {:trigger p in pages} :: p in pages ==> p in old(pages) && pages[p] == old(pages)[p]
      requires forall p {:trigger p in pages} :: p in pages && p.0 < 1023 && p.1 < ENTRIES ==>
        Lookup(p.0, p.1) == old(Lookup(p.0, p.1))
      ensures Valid()
    {
      forall p | p in pages ensures PageOk(p) { assert old(PageOk(p)); }
      forall p, q | p in pages && q in pages ensures PagesApart(p, q) { assert old(PagesApart(p, q)); }
      forall p, h | p in pages && 0 <= h < ENTRIES ensures NoTable(p, h) { assert old(NoTable(p, h)); }
    }

    /** The pages of table `i` outside of the range are mapped as before. */
    twostate predicate OthersKept(i: nat, j: nat, n: nat)
      requires old(Tables()) && Tables() && i < ENTRIES
      reads phys, frames
    {
      forall k {:trigger Lookup(i, k)} :: 0 <= k < ENTRIES && !(j <= k < j + n) ==> Lookup(i, k) == old(Lookup(i, k))
    }

    /** As after the start: unmapping page `j` of the kernel's table drops it, because table `j + 1` is missing. */
    lemma UnmapDropsKernelTable(j: nat)
      requires Tables() && 0 < j && j + 1 < KERNEL_ENTRY && !Dir(j + 1).Present() && Mapped(KERNEL_ENTRY, 0)
      ensures Drops(KERNEL_ENTRY, j, 1) && !NothingElse(KERNEL_ENTRY, j, 1)
    {
      var e := j + 1;
      forall k {:trigger Mapped(e, k)} | 0 <= k < ENTRIES ensures !Mapped(e, k) { assert TableOk(e); }
    }

    /** Lines 192-197: the pages are unmapped, and perhaps their whole table. */
    method UnmapAt(i: nat, j: nat, n: nat)
      requires Valid() && i < 1023 && j + n < ENTRIES && Dir(i).Present()
      modifies this`pages, phys
      ensures Valid()
      ensures forall h, k {:trigger Lookup(h, k)} :: 0 <= h < 1023 && 0 <= k < ENTRIES ==>
        Lookup(h, k) == if h == i && (old(Drops(i, j, n)) || j <= k < j + n) then None else old(Lookup(h, k))
    {
      hide PageOk, PagesApart, NoTable;
      ClearPages(i, j, n);
      ClearedTables((i, j, n));
      var empty := PageIsEmpty(j + n);
      ClearedDrops((i, j, n));
      if empty { DropTable(i); }
      Forget(i, j, n, empty);
      UnmappedKeeps(i);
    }

    /** The pages that are no longer mapped. */
    ghost method Forget(i: nat, j: nat, n: nat, all: bool)
      modifies this`pages
      ensures forall p {:trigger p in pages} ::
        p in pages <==> p in old(pages) && !(p.0 == i && (all || j <= p.1 < j + n))
      ensures forall p {:trigger p in pages} :: p in pages ==> pages[p] == old(pages)[p]
    {
      pages := map p | p in pages && !(p.0 == i && (all || j <= p.1 < j + n)) :: pages[p];
    }

    /** page_unmap of pages within one table, the last page of the table excepted. */
    method PageUnmap(addr: nat, n: nat) returns (ok: bool)
      requires Valid() && DirectoryIndex(addr) < 1023 && TableIndex(addr) + n < ENTRIES
      requires Dir(DirectoryIndex(addr)).Present()
      modifies this`pages, phys
      ensures Valid() && ok == (addr % 0x1000 == 0)
      ensures !ok ==> unchanged(this, phys)
      ensures ok ==> var i, j := DirectoryIndex(addr), TableIndex(addr);
        forall h, k {:trigger Lookup(h, k)} :: 0 <= h < 1023 && 0 <= k < ENTRIES ==>
          Lookup(h, k) == if h == i && (old(Drops(i, j, n)) || j <= k < j + n) then None else old(Lookup(h, k))
      ensures ok ==> var i, j := DirectoryIndex(addr), TableIndex(addr);
        OthersKept(i, j, n) <==> !old(Drops(i, j, n)) || old(NothingElse(i, j, n))
    {
      if addr % 0x1000 != 0 { return false; }
      var i, j := DirectoryIndex(addr), TableIndex(addr);
      ghost var drops := Drops(i, j, n);
      UnmapAt(i, j, n);
      forall k | 0 <= k < ENTRIES && !(j <= k < j + n) && old(Mapped(i, k)) ensures drops ==> !OthersKept(i, j, n) {
        assert drops ==> Lookup(i, k) != old(Lookup(i, k));
      }
      ok := true;
    }
  }
}
